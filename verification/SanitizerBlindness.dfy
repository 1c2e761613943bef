/** Which documents the sanitizer treats the same whatever real addresses they
    contain. */
module SanitizerBlindness {
  import opened Options
  import opened Text
  import opened Pools
  import opened Allocators
  import opened Sanitizing
  import opened SanitizerSight

  /** A renaming of the real addresses. */
  datatype Renaming = Renaming(v4: Ipv4 -> Ipv4, v6: string -> string, mac: string -> string)

  ghost predicate Injective<A(!new), B>(f: A -> B) {
    forall x, y :: f(x) == f(y) ==> x == y
  }

  /** One to one, to addresses of the same kind, and leaving alone the MAC
      addresses under the sanitizer's own prefix, which it passes through. */
  ghost predicate Admissible(r: Renaming) {
    && Injective(r.v4) && Injective(r.v6) && Injective(r.mac)
    && (forall m :: OwnMac(m) ==> r.mac(m) == m)
    && (forall name :: Spelling(name) ==> Spelling(r.v6(name)))
    && (forall name :: Spelling(name) ==> Spelling(r.mac(name)))
  }

  function RenameToken(r: Renaming, t: Token): Token {
    match t
    case Lit(_) => t
    case V4(addr, _) => t.(addr := r.v4(addr))
    case V6(name, _, _) => t.(name := r.v6(name))
    case Mac(name) => Mac(r.mac(name))
  }

  function RenameTokens(r: Renaming, tokens: Tokens): (res: Tokens)
    ensures |res| == |tokens|
  {
    if tokens == [] then [] else [RenameToken(r, tokens[0])] + RenameTokens(r, tokens[1..])
  }

  function Rename(r: Renaming, v: Json): Json
    decreases v, 0
  {
    match v
    case Obj(fields) => Obj(RenameFields(r, fields))
    case Arr(items) => Arr(RenameItems(r, items))
    case Str(tokens) => Str(RenameTokens(r, tokens))
    case Atom(_) => v
  }

  function RenameFields(r: Renaming, fields: seq<Field>): seq<Field>
    decreases fields, 0
  {
    if fields == [] then []
    else [Field(fields[0].key, Rename(r, fields[0].value))] + RenameFields(r, fields[1..])
  }

  function RenameItems(r: Renaming, items: seq<Json>): seq<Json>
    decreases items, 0
  {
    if items == [] then [] else [Rename(r, items[0])] + RenameItems(r, items[1..])
  }

  // ----------------------------------------------------------- leaking strings

  /** An address that the IPv4 pass leaves in place. */
  predicate Survives(t: Token) {
    t.V6? || (t.Mac? && !OwnMac(t.name))
  }

  predicate SomeV4(tokens: Tokens) {
    tokens != [] && (tokens[0].V4? || SomeV4(tokens[1..]))
  }

  predicate SomeSurvivor(tokens: Tokens) {
    tokens != [] && (Survives(tokens[0]) || SomeSurvivor(tokens[1..]))
  }

  /** A user-name value `who@host` whose host part holds an IPv4 address next to
      an IPv6 or MAC address: only the IPv4 pass is run on it. */
  predicate StringLeaks(tokens: Tokens, name: string) {
    KindOf(name).Username? && HostLeaks(tokens)
  }

  predicate HostLeaks(tokens: Tokens) {
    HasAt(tokens) && SomeV4(AfterAt(tokens)) && SomeSurvivor(AfterAt(tokens))
  }

  predicate Leaks(v: Json, name: string)
    decreases v, 0
  {
    match v
    case Obj(fields) => FieldsLeak(fields)
    case Arr(items) => ItemsLeak(items, name)
    case Str(tokens) => StringLeaks(tokens, name)
    case Atom(_) => false
  }

  predicate FieldsLeak(fields: seq<Field>)
    decreases fields, 0
  {
    fields != [] && (Leaks(fields[0].value, fields[0].key) || FieldsLeak(fields[1..]))
  }

  predicate ItemsLeak(items: seq<Json>, name: string)
    decreases items, 0
  {
    items != [] && (Leaks(items[0], name) || ItemsLeak(items[1..], name))
  }

  // ------------------------------------------------------------ related states

  ghost predicate SamePool<K(!new), P>(f: K -> K, a: Pool<K, P>, b: Pool<K, P>) {
    && a.used == b.used
    && forall k :: (k in a.given <==> f(k) in b.given) && (k in a.given ==> a.given[k] == b.given[f(k)])
  }

  ghost predicate Related(r: Renaming, a: State, b: State) {
    && SamePool(r.v4, a.v4, b.v4)
    && SamePool(r.v6, a.v6, b.v6)
    && SamePool(r.mac, a.mac, b.mac)
    && a.counts == b.counts
    && a.redacted == b.redacted
  }

  lemma SameAllocation<K(!new), P>(f: K -> K, a: Pool<K, P>, b: Pool<K, P>, nth: nat -> P, key: K)
    requires Injective(f) && SamePool(f, a, b)
    ensures SamePool(f, Allocate(a, nth, key), Allocate(b, nth, f(key)))
    ensures Allocate(a, nth, key).given[key] == Allocate(b, nth, f(key)).given[f(key)]
  {
  }

  lemma {:induction false} SameBlank(r: Renaming, tokens: Tokens)
    ensures Blank(RenameTokens(r, tokens)) == Blank(tokens)
  {
    if tokens != [] {
      assert RenameTokens(r, tokens)[1..] == RenameTokens(r, tokens[1..]);
      SameBlank(r, tokens[1..]);
    }
  }

  lemma {:induction false} SameMarkerApart(r: Renaming, marker: string, before: string, tokens: Tokens)
    ensures MarkerApart(marker, before, RenameTokens(r, tokens)) <==> MarkerApart(marker, before, tokens)
    decreases tokens
  {
    if tokens != [] {
      assert RenameTokens(r, tokens)[1..] == RenameTokens(r, tokens[1..]);
      SameBlank(r, tokens[1..]);
      SameMarkerApart(r, marker, if tokens[0].Lit? then before + tokens[0].text else "", tokens[1..]);
    }
  }

  lemma {:induction false} SameExtensionApart(r: Renaming, before: string, tokens: Tokens)
    ensures ExtensionApart(before, RenameTokens(r, tokens)) <==> ExtensionApart(before, tokens)
    decreases tokens
  {
    if tokens != [] {
      assert RenameTokens(r, tokens)[1..] == RenameTokens(r, tokens[1..]);
      SameExtensionApart(r, if tokens[0].Lit? then before + tokens[0].text else "", tokens[1..]);
    }
  }

  lemma {:induction false} StaysWellFormed(r: Renaming, tokens: Tokens)
    requires Admissible(r) && WellFormed(tokens)
    ensures WellFormed(RenameTokens(r, tokens))
  {
    if tokens != [] {
      StaysWellFormed(r, tokens[1..]);
    }
  }

  /** Whether a string is refused does not depend on which addresses it holds, if
      they stand apart. */
  lemma SameRefusal(r: Renaming, p: Policy, tokens: Tokens, name: string)
    requires Admissible(r) && WellFormed(tokens) && Apart(tokens)
    ensures RefusalOf(p, Rendered(RenameTokens(r, tokens)), name) == RefusalOf(p, Rendered(tokens), name)
    ensures Rendered(RenameTokens(r, tokens)) == "" <==> Rendered(tokens) == ""
  {
    StaysWellFormed(r, tokens);
    forall i | 0 <= i < |PEM_MARKERS| ensures MarkerApart(PEM_MARKERS[i], "", RenameTokens(r, tokens)) {
      SameMarkerApart(r, PEM_MARKERS[i], "", tokens);
    }
    SameExtensionApart(r, "", tokens);
    RefusalBlank(p, tokens, name);
    RefusalBlank(p, RenameTokens(r, tokens), name);
    SameBlank(r, tokens);
  }

  // ---------------------------------------------------------------- the passes

  /** What is left of a renaming once a pass has run. */
  function NoV4(r: Renaming): Renaming {
    r.(v4 := x => x)
  }

  function NoV6(r: Renaming): Renaming {
    r.(v6 := x => x)
  }

  lemma StepV4Related(r: Renaming, t: Token, a: Pool<Ipv4, Ipv4>, b: Pool<Ipv4, Ipv4>)
    requires Injective(r.v4) && SamePool(r.v4, a, b)
    ensures var x := StepV4(t, a); var y := StepV4(RenameToken(r, t), b);
      SamePool(r.v4, x.pool, y.pool) && x.count == y.count && y.token == RenameToken(NoV4(r), x.token)
  {
    if t.V4? {
      SameAllocation(r.v4, a, b, NthIpv4, t.addr);
    }
  }

  lemma {:induction false} PassV4Related(r: Renaming, tokens: Tokens, a: Pool<Ipv4, Ipv4>, b: Pool<Ipv4, Ipv4>)
    requires Injective(r.v4) && SamePool(r.v4, a, b)
    ensures var x := PassV4(tokens, a); var y := PassV4(RenameTokens(r, tokens), b);
      SamePool(r.v4, x.pool, y.pool) && x.count == y.count && y.tokens == RenameTokens(NoV4(r), x.tokens)
  {
    if tokens != [] {
      var x0, y0 := StepV4(tokens[0], a), StepV4(RenameToken(r, tokens[0]), b);
      StepV4Related(r, tokens[0], a, b);
      PassV4Related(r, tokens[1..], x0.pool, y0.pool);
      assert RenameTokens(r, tokens)[1..] == RenameTokens(r, tokens[1..]);
      assert PassV4(tokens, a).tokens[1..] == PassV4(tokens[1..], x0.pool).tokens;
    }
  }

  lemma StepV6Related(r: Renaming, t: Token, a: Pool<string, string>, b: Pool<string, string>)
    requires Injective(r.v6) && SamePool(r.v6, a, b)
    ensures var x := StepV6(t, a); var y := StepV6(RenameToken(r, t), b);
      SamePool(r.v6, x.pool, y.pool) && x.count == y.count && y.token == RenameToken(NoV6(r), x.token)
  {
    if t.V6? {
      SameAllocation(r.v6, a, b, NthIpv6, t.name);
    }
  }

  lemma {:induction false} PassV6Related(r: Renaming, tokens: Tokens, a: Pool<string, string>, b: Pool<string, string>)
    requires Injective(r.v6) && SamePool(r.v6, a, b)
    ensures var x := PassV6(tokens, a); var y := PassV6(RenameTokens(r, tokens), b);
      SamePool(r.v6, x.pool, y.pool) && x.count == y.count && y.tokens == RenameTokens(NoV6(r), x.tokens)
  {
    if tokens != [] {
      var x0, y0 := StepV6(tokens[0], a), StepV6(RenameToken(r, tokens[0]), b);
      StepV6Related(r, tokens[0], a, b);
      PassV6Related(r, tokens[1..], x0.pool, y0.pool);
      assert RenameTokens(r, tokens)[1..] == RenameTokens(r, tokens[1..]);
      assert PassV6(tokens, a).tokens[1..] == PassV6(tokens[1..], x0.pool).tokens;
    }
  }

  lemma StepMacRelated(r: Renaming, t: Token, a: Pool<string, string>, b: Pool<string, string>)
    requires Admissible(r) && SamePool(r.mac, a, b)
    ensures var x := StepMac(t, a); var y := StepMac(RenameToken(r, t), b);
      && SamePool(r.mac, x.pool, y.pool) && x.count == y.count
      && (t.Mac? || RenameToken(r, t) == t ==> y.token == x.token)
  {
    if t.Mac? && !OwnMac(t.name) {
      OwnMacKept(r, t.name);
      SameAllocation(r.mac, a, b, NthMac, t.name);
    }
  }

  /** A renaming neither creates nor removes the sanitizer's own prefix. */
  lemma OwnMacKept(r: Renaming, m: string)
    requires Admissible(r) && !OwnMac(m)
    ensures !OwnMac(r.mac(m))
  {
    assert OwnMac(r.mac(m)) ==> r.mac(r.mac(m)) == r.mac(m);
  }

  /** Only MAC addresses are still renamed. */
  ghost predicate OnlyMacs(r: Renaming) {
    (forall x :: r.v4(x) == x) && (forall x :: r.v6(x) == x)
  }

  lemma {:induction false} PassMacRelated(r: Renaming, tokens: Tokens, a: Pool<string, string>, b: Pool<string, string>)
    requires Admissible(r) && OnlyMacs(r) && SamePool(r.mac, a, b)
    ensures var x := PassMac(tokens, a); var y := PassMac(RenameTokens(r, tokens), b);
      SamePool(r.mac, x.pool, y.pool) && x.count == y.count && y.tokens == x.tokens
  {
    if tokens != [] {
      var x0, y0 := StepMac(tokens[0], a), StepMac(RenameToken(r, tokens[0]), b);
      StepMacRelated(r, tokens[0], a, b);
      PassMacRelated(r, tokens[1..], x0.pool, y0.pool);
      assert RenameTokens(r, tokens)[1..] == RenameTokens(r, tokens[1..]);
    }
  }

  lemma Narrowed(r: Renaming)
    requires Admissible(r)
    ensures Admissible(NoV6(NoV4(r))) && OnlyMacs(NoV6(NoV4(r))) && NoV6(NoV4(r)).mac == r.mac
    ensures Injective(NoV4(r).v6) && NoV4(r).v6 == r.v6
  {
  }

  // -------------------------------------------------------------- string level

  /** The pools of the IPv4, IPv6 and MAC passes, one after another. */
  lemma PassesRelated(r: Renaming, tokens: Tokens, a: State, b: State)
    requires Admissible(r) && Related(r, a, b)
    ensures var x4, y4 := PassV4(tokens, a.v4), PassV4(RenameTokens(r, tokens), b.v4);
      var x6, y6 := PassV6(x4.tokens, a.v6), PassV6(y4.tokens, b.v6);
      var x, y := PassMac(x6.tokens, a.mac), PassMac(y6.tokens, b.mac);
      && SamePool(r.v4, x4.pool, y4.pool) && SamePool(r.v6, x6.pool, y6.pool) && SamePool(r.mac, x.pool, y.pool)
      && x4.count == y4.count && x6.count == y6.count && x.count == y.count && x.tokens == y.tokens
  {
    Narrowed(r);
    PassV4Related(r, tokens, a.v4, b.v4);
    var x4 := PassV4(tokens, a.v4);
    PassV6Related(NoV4(r), x4.tokens, a.v6, b.v6);
    PassMacRelated(NoV6(NoV4(r)), PassV6(x4.tokens, a.v6).tokens, a.mac, b.mac);
  }

  lemma AddressesRelated(r: Renaming, tokens: Tokens, a: State, b: State)
    requires Admissible(r) && Related(r, a, b)
    ensures var x := ReplaceAddresses(tokens, a); var y := ReplaceAddresses(RenameTokens(r, tokens), b);
      Related(r, x.state, y.state) && x.changed == y.changed && x.tokens == y.tokens
  {
    PassesRelated(r, tokens, a, b);
    var x4, y4 := PassV4(tokens, a.v4), PassV4(RenameTokens(r, tokens), b.v4);
    var x6, y6 := PassV6(x4.tokens, a.v6), PassV6(y4.tokens, b.v6);
    var x, y := PassMac(x6.tokens, a.mac), PassMac(y6.tokens, b.mac);
    CountedRelated(r, a, b, x4, y4, x6, y6, x, y);
  }

  lemma CountedRelated(
      r: Renaming, a: State, b: State, x4: Pass<Ipv4, Ipv4>, y4: Pass<Ipv4, Ipv4>,
      x6: Pass<string, string>, y6: Pass<string, string>, x: Pass<string, string>, y: Pass<string, string>)
    requires SamePool(r.v4, x4.pool, y4.pool) && SamePool(r.v6, x6.pool, y6.pool) && SamePool(r.mac, x.pool, y.pool)
    requires x4.count == y4.count && x6.count == y6.count && x.count == y.count
    requires a.counts == b.counts && a.redacted == b.redacted
    ensures Related(r, Counted(a, x4, x6, x), Counted(b, y4, y6, y))
  {
  }

  lemma {:induction false} NothingReplaced(r: Renaming, tokens: Tokens, st: State)
    requires Admissible(r) && !ReplaceAddresses(tokens, st).changed
    ensures RenameTokens(r, tokens) == tokens
  {
    if tokens != [] {
      var four := PassV4(tokens, st.v4);
      var six := PassV6(four.tokens, st.v6);
      UncountedV4(tokens, st.v4);
      UncountedV6(tokens, st.v6);
      UncountedMac(r, tokens, st.mac);
    }
  }

  lemma {:induction false} UncountedV4(tokens: Tokens, pool: Pool<Ipv4, Ipv4>)
    requires PassV4(tokens, pool).count == 0
    ensures PassV4(tokens, pool).tokens == tokens && forall i :: 0 <= i < |tokens| ==> !tokens[i].V4?
  {
    if tokens != [] {
      UncountedV4(tokens[1..], pool);
      assert tokens == [tokens[0]] + tokens[1..];
    }
  }

  lemma {:induction false} UncountedV6(tokens: Tokens, pool: Pool<string, string>)
    requires PassV6(tokens, pool).count == 0
    ensures PassV6(tokens, pool).tokens == tokens && forall i :: 0 <= i < |tokens| ==> !tokens[i].V6?
  {
    if tokens != [] {
      UncountedV6(tokens[1..], pool);
      assert tokens == [tokens[0]] + tokens[1..];
    }
  }

  lemma {:induction false} UncountedMac(r: Renaming, tokens: Tokens, pool: Pool<string, string>)
    requires Admissible(r) && PassMac(tokens, pool).count == 0
    requires forall i :: 0 <= i < |tokens| ==> !tokens[i].V4? && !tokens[i].V6?
    ensures RenameTokens(r, tokens) == tokens
  {
    if tokens != [] {
      assert forall i :: 0 <= i < |tokens[1..]| ==> tokens[1..][i] == tokens[i + 1];
      UncountedMac(r, tokens[1..], pool);
      assert tokens == [tokens[0]] + tokens[1..];
    }
  }

  lemma GenericRelated(r: Renaming, tokens: Tokens, name: string, a: State, b: State)
    requires Admissible(r) && Related(r, a, b)
    ensures var x := SubstituteGeneric(tokens, name, a); var y := SubstituteGeneric(RenameTokens(r, tokens), name, b);
      Related(r, x.state, y.state) && x.changed == y.changed && x.tokens == y.tokens
  {
    AddressesRelated(r, tokens, a, b);
    if !ReplaceAddresses(tokens, a).changed {
      NothingReplaced(r, tokens, a);
    }
  }

  lemma {:induction false} AfterAtRenamed(r: Renaming, tokens: Tokens)
    ensures HasAt(RenameTokens(r, tokens)) == HasAt(tokens)
    ensures AfterAt(RenameTokens(r, tokens)) == RenameTokens(r, AfterAt(tokens))
  {
    if tokens != [] {
      assert RenameTokens(r, tokens)[1..] == RenameTokens(r, tokens[1..]);
      AfterAtRenamed(r, tokens[1..]);
    }
  }

  lemma {:induction false} PassV4Shape(tokens: Tokens, pool: Pool<Ipv4, Ipv4>)
    ensures var x := PassV4(tokens, pool);
      (x.count > 0 <==> SomeV4(tokens)) && (SomeSurvivor(x.tokens) <==> SomeSurvivor(tokens))
  {
    if tokens != [] {
      var first := StepV4(tokens[0], pool);
      PassV4Shape(tokens[1..], first.pool);
      assert PassV4(tokens, pool).tokens[1..] == PassV4(tokens[1..], first.pool).tokens;
    }
  }

  lemma {:induction false} NothingLeft(r: Renaming, tokens: Tokens)
    requires Admissible(r) && !SomeSurvivor(tokens)
    ensures RenameTokens(NoV4(r), tokens) == tokens
  {
    if tokens != [] {
      NothingLeft(r, tokens[1..]);
    }
  }

  /** A user-name value: the two runs agree, or differ by the renaming of what
      the IPv4 pass left in place. */
  lemma UsernameRelated(r: Renaming, tokens: Tokens, a: State, b: State)
    requires Admissible(r) && Related(r, a, b)
    ensures var x := SubstituteUsername(tokens, a); var y := SubstituteUsername(RenameTokens(r, tokens), b);
      && Related(r, x.state, y.state)
      && (!HostLeaks(tokens) ==> x.tokens == y.tokens)
      && (HostLeaks(tokens) ==>
            x.tokens == [Lit("admin@")] + PassV4(AfterAt(tokens), a.v4).tokens &&
            y.tokens == [Lit("admin@")] + RenameTokens(NoV4(r), PassV4(AfterAt(tokens), a.v4).tokens))
  {
    AfterAtRenamed(r, tokens);
    var host := AfterAt(tokens);
    PassV4Related(r, host, a.v4, b.v4);
    PassV4Shape(host, a.v4);
    if !SomeSurvivor(host) {
      NothingLeft(r, PassV4(host, a.v4).tokens);
    }
  }

  lemma IdentifyingRelated(r: Renaming, tokens: Tokens, name: string, a: State, b: State)
    requires Admissible(r) && Related(r, a, b)
    ensures var x := SubstituteIdentifying(tokens, name, a); var y := SubstituteIdentifying(RenameTokens(r, tokens), name, b);
      Related(r, x.state, y.state) && (!StringLeaks(tokens, name) ==> x.tokens == y.tokens)
  {
    match KindOf(name)
    case NetgateId =>
    case Serial =>
    case Username => UsernameRelated(r, tokens, a.(redacted := a.redacted + {name}), b.(redacted := b.redacted + {name}));
    case OtherIdentifying => GenericRelated(r, tokens, name, a, b);
  }

  lemma SubstituteRelated(r: Renaming, p: Policy, tokens: Tokens, name: string, a: State, b: State)
    requires Admissible(r) && Related(r, a, b)
    ensures var x := Substitute(p, tokens, name, a); var y := Substitute(p, RenameTokens(r, tokens), name, b);
      Related(r, x.state, y.state) && (!StringLeaks(tokens, name) ==> x.tokens == y.tokens)
  {
    if Identifying(p, name) {
      IdentifyingRelated(r, tokens, name, a, b);
    } else {
      GenericRelated(r, tokens, name, a, b);
    }
  }

  /** What a capture shows: everything but the sanitizer's private maps. */
  ghost predicate SameOutcome<T(!new)>(r: Renaming, x: Outcome<T>, y: Outcome<T>, sameValue: bool) {
    match (x, y)
    case (Ok(v, st), Ok(v', st')) => Related(r, st, st') && (sameValue ==> v == v')
    case (Refused(why), Refused(why')) => why == why'
    case _ => false
  }

  lemma StringRelated(r: Renaming, p: Policy, tokens: Tokens, name: string, path: string, a: State, b: State)
    requires Admissible(r) && Related(r, a, b) && Plain(tokens)
    ensures SameOutcome(r, SanitizeString(p, tokens, name, path, a), SanitizeString(p, RenameTokens(r, tokens), name, path, b),
                        !StringLeaks(tokens, name))
  {
    SameRefusal(r, p, tokens, name);
    if Rendered(tokens) == "" {
      EmptyFixed(r, tokens);
    } else {
      SubstituteRelated(r, p, tokens, name, a, b);
    }
  }

  lemma {:induction false} EmptyFixed(r: Renaming, tokens: Tokens)
    requires WellFormed(tokens) && Rendered(tokens) == ""
    ensures RenameTokens(r, tokens) == tokens && !HasAt(tokens)
  {
    if tokens != [] {
      assert |Rendered(tokens)| == |TokenText(tokens[0])| + |Rendered(tokens[1..])|;
      if !tokens[0].Lit? {
        TokenLike(tokens[0]);
      }
      EmptyFixed(r, tokens[1..]);
    }
  }

  /** A string as it is split, whose addresses stand apart. */
  predicate Plain(tokens: Tokens) {
    WellFormed(tokens) && Apart(tokens)
  }

  /** All strings of a document are. */
  predicate AllPlain(v: Json)
    decreases v, 0
  {
    match v
    case Obj(fields) => FieldsPlain(fields)
    case Arr(items) => ItemsPlain(items)
    case Str(tokens) => Plain(tokens)
    case Atom(_) => true
  }

  predicate FieldsPlain(fields: seq<Field>)
    decreases fields, 0
  {
    fields == [] || (AllPlain(fields[0].value) && FieldsPlain(fields[1..]))
  }

  predicate ItemsPlain(items: seq<Json>)
    decreases items, 0
  {
    items == [] || (AllPlain(items[0]) && ItemsPlain(items[1..]))
  }

  // ------------------------------------------------------------ document level

  lemma {:induction false} DocumentRelated(r: Renaming, p: Policy, v: Json, name: string, path: string, a: State, b: State)
    requires Admissible(r) && Related(r, a, b) && AllPlain(v)
    ensures SameOutcome(r, Sanitize(p, v, name, path, a), Sanitize(p, Rename(r, v), name, path, b), !Leaks(v, name))
    decreases v, 0
  {
    match v
    case Obj(fields) => FieldsRelated(r, p, fields, path, a, b);
    case Arr(items) => ItemsRelated(r, p, items, name, path, 0, a, b);
    case Str(tokens) => StringRelated(r, p, tokens, name, path, a, b);
    case Atom(_) =>
  }

  lemma {:induction false} FieldsRelated(r: Renaming, p: Policy, fields: seq<Field>, path: string, a: State, b: State)
    requires Admissible(r) && Related(r, a, b) && FieldsPlain(fields)
    ensures SameOutcome(r, SanitizeFields(p, fields, path, a), SanitizeFields(p, RenameFields(r, fields), path, b), !FieldsLeak(fields))
    decreases fields, 0
  {
    if fields != [] {
      var k, v := fields[0].key, fields[0].value;
      DocumentRelated(r, p, v, k, KeyPath(path, k), a, b);
      assert RenameFields(r, fields)[1..] == RenameFields(r, fields[1..]);
      var x, y := Sanitize(p, v, k, KeyPath(path, k), a), Sanitize(p, Rename(r, v), k, KeyPath(path, k), b);
      if x.Ok? {
        FieldsRelated(r, p, fields[1..], path, x.state, y.state);
      }
    }
  }

  lemma {:induction false} ItemsRelated(r: Renaming, p: Policy, items: seq<Json>, name: string, path: string, i: nat, a: State, b: State)
    requires Admissible(r) && Related(r, a, b) && ItemsPlain(items)
    ensures SameOutcome(r, SanitizeItems(p, items, name, path, i, a), SanitizeItems(p, RenameItems(r, items), name, path, i, b),
                        !ItemsLeak(items, name))
    decreases items, 0
  {
    if items != [] {
      DocumentRelated(r, p, items[0], name, IndexPath(path, i), a, b);
      assert RenameItems(r, items)[1..] == RenameItems(r, items[1..]);
      var x, y := Sanitize(p, items[0], name, IndexPath(path, i), a), Sanitize(p, Rename(r, items[0]), name, IndexPath(path, i), b);
      if x.Ok? {
        ItemsRelated(r, p, items[1..], name, path, i + 1, x.state, y.state);
      }
    }
  }

  // --------------------------------------------------------- leaks are visible

  function Swap(a: string, b: string): string -> string {
    x => if x == a then b else if x == b then a else x
  }

  /** A renaming that exchanges one IPv6 or MAC address for another. */
  function Moving(t: Token): Renaming
    requires Survives(t)
  {
    var same4 := (x: Ipv4) => x;
    var same := (x: string) => x;
    match t
    case V6(name, _, _) => Renaming(same4, Swap(name, if name == "fe80::1" then "fe80::2" else "fe80::1"), same)
    case Mac(name) =>
      Renaming(same4, same, Swap(name, if name == "aa:bb:cc:dd:ee:01" then "aa:bb:cc:dd:ee:02" else "aa:bb:cc:dd:ee:01"))
  }

  lemma SwapKeeps(a: string, b: string)
    requires Spelling(a) && Spelling(b)
    ensures Injective(Swap(a, b)) && forall name :: Spelling(name) ==> Spelling(Swap(a, b)(name))
    ensures Swap(a, b)(a) == b
  {
  }

  lemma Spellings()
    ensures Spelling("fe80::1") && Spelling("fe80::2") && "fe80::1" != "fe80::2"
  {
    assert "fe80::1"[4] == ':' && "fe80::2"[4] == ':' && "fe80::1"[6] != "fe80::2"[6];
  }

  lemma MacSpellings()
    ensures Spelling("aa:bb:cc:dd:ee:01") && Spelling("aa:bb:cc:dd:ee:02") && "aa:bb:cc:dd:ee:01" != "aa:bb:cc:dd:ee:02"
    ensures !OwnMac("aa:bb:cc:dd:ee:01") && !OwnMac("aa:bb:cc:dd:ee:02")
  {
    assert "aa:bb:cc:dd:ee:01"[2] == ':' && "aa:bb:cc:dd:ee:02"[2] == ':' && "aa:bb:cc:dd:ee:01"[16] != "aa:bb:cc:dd:ee:02"[16];
    assert "aa:bb:cc:dd:ee:01"[0] != MAC_PLACEHOLDER_PREFIX[0] && "aa:bb:cc:dd:ee:02"[0] != MAC_PLACEHOLDER_PREFIX[0];
  }

  lemma MovingMoves(t: Token)
    requires Survives(t) && WellFormedToken(t)
    ensures Admissible(Moving(t)) && RenameToken(NoV4(Moving(t)), t) != t
  {
    Spellings();
    MacSpellings();
    match t
    case V6(name, _, _) => SwapKeeps(name, if name == "fe80::1" then "fe80::2" else "fe80::1");
    case Mac(name) => SwapKeeps(name, if name == "aa:bb:cc:dd:ee:01" then "aa:bb:cc:dd:ee:02" else "aa:bb:cc:dd:ee:01");
  }

  lemma {:induction false} SurvivorMoves(tokens: Tokens) returns (r: Renaming)
    requires SomeSurvivor(tokens) && WellFormed(tokens)
    ensures Admissible(r) && RenameTokens(NoV4(r), tokens) != tokens
  {
    if Survives(tokens[0]) {
      r := Moving(tokens[0]);
      MovingMoves(tokens[0]);
      assert RenameTokens(NoV4(r), tokens)[0] != tokens[0];
    } else {
      r := SurvivorMoves(tokens[1..]);
      assert RenameTokens(NoV4(r), tokens)[1..] != tokens[1..];
    }
  }

  ghost predicate Differ<T(!new)>(x: Outcome<T>, y: Outcome<T>) {
    x.Ok? && y.Ok? && x.value != y.value
  }

  lemma StringLeakShows(p: Policy, tokens: Tokens, name: string, path: string, a: State) returns (r: Renaming)
    requires StringLeaks(tokens, name) && Plain(tokens) && SanitizeString(p, tokens, name, path, a).Ok?
    ensures Admissible(r)
    ensures forall b :: Related(r, a, b) ==>
      Differ(SanitizeString(p, tokens, name, path, a), SanitizeString(p, RenameTokens(r, tokens), name, path, b))
  {
    var host := PassV4(AfterAt(tokens), a.v4).tokens;
    PassV4Shape(AfterAt(tokens), a.v4);
    HostWellFormed(tokens, a.v4);
    r := SurvivorMoves(host);
    forall b | Related(r, a, b)
      ensures Differ(SanitizeString(p, tokens, name, path, a), SanitizeString(p, RenameTokens(r, tokens), name, path, b))
    {
      LeakedStringDiffers(r, p, tokens, name, path, a, b);
    }
  }

  lemma {:induction false} HostWellFormed(tokens: Tokens, pool: Pool<Ipv4, Ipv4>)
    requires WellFormed(tokens)
    ensures WellFormed(PassV4(AfterAt(tokens), pool).tokens)
  {
    AfterAtWellFormed(tokens);
    PassV4WellFormed(AfterAt(tokens), pool);
  }

  lemma {:induction false} AfterAtWellFormed(tokens: Tokens)
    requires WellFormed(tokens)
    ensures WellFormed(AfterAt(tokens))
  {
    if tokens != [] {
      assert WellFormed(tokens[1..]);
      AfterAtWellFormed(tokens[1..]);
    }
  }

  lemma {:induction false} PassV4WellFormed(tokens: Tokens, pool: Pool<Ipv4, Ipv4>)
    requires WellFormed(tokens)
    ensures WellFormed(PassV4(tokens, pool).tokens)
  {
    if tokens != [] {
      var first := StepV4(tokens[0], pool);
      assert WellFormed(tokens[1..]);
      PassV4WellFormed(tokens[1..], first.pool);
      assert PassV4(tokens, pool).tokens[1..] == PassV4(tokens[1..], first.pool).tokens;
    }
  }

  lemma LeakedStringDiffers(r: Renaming, p: Policy, tokens: Tokens, name: string, path: string, a: State, b: State)
    requires Admissible(r) && Related(r, a, b) && StringLeaks(tokens, name) && Plain(tokens)
    requires SanitizeString(p, tokens, name, path, a).Ok?
    requires RenameTokens(NoV4(r), PassV4(AfterAt(tokens), a.v4).tokens) != PassV4(AfterAt(tokens), a.v4).tokens
    ensures Differ(SanitizeString(p, tokens, name, path, a), SanitizeString(p, RenameTokens(r, tokens), name, path, b))
  {
    UsernameAccepted(r, p, tokens, name, path, a, b);
    var a', b' := a.(redacted := a.redacted + {name}), b.(redacted := b.redacted + {name});
    UsernameRelated(r, tokens, a', b');
    var host := PassV4(AfterAt(tokens), a.v4).tokens;
    var x, y := SubstituteUsername(tokens, a').tokens, SubstituteUsername(RenameTokens(r, tokens), b').tokens;
    assert x[1..] == host && y[1..] == RenameTokens(NoV4(r), host);
  }

  /** A user-name value that is captured is captured under every renaming. */
  lemma UsernameAccepted(r: Renaming, p: Policy, tokens: Tokens, name: string, path: string, a: State, b: State)
    requires Admissible(r) && StringLeaks(tokens, name) && Plain(tokens) && SanitizeString(p, tokens, name, path, a).Ok?
    ensures SanitizeString(p, tokens, name, path, a).value == SubstituteUsername(tokens, a.(redacted := a.redacted + {name})).tokens
    ensures SanitizeString(p, RenameTokens(r, tokens), name, path, b).Ok?
    ensures SanitizeString(p, RenameTokens(r, tokens), name, path, b).value ==
            SubstituteUsername(RenameTokens(r, tokens), b.(redacted := b.redacted + {name})).tokens
  {
    UsernameIdentifies(p, name);
    SameRefusal(r, p, tokens, name);
    if Rendered(tokens) == "" {
      EmptyFixed(r, tokens);
    }
  }

  lemma UsernameIdentifies(p: Policy, name: string)
    requires KindOf(name).Username?
    ensures Identifying(p, name)
  {
  }

  lemma {:induction false} LeakShows(p: Policy, v: Json, name: string, path: string, a: State) returns (r: Renaming)
    requires Leaks(v, name) && AllPlain(v) && Sanitize(p, v, name, path, a).Ok?
    ensures Admissible(r)
    ensures forall b :: Related(r, a, b) ==> Differ(Sanitize(p, v, name, path, a), Sanitize(p, Rename(r, v), name, path, b))
    decreases v, 0
  {
    match v
    case Obj(fields) => r := FieldsLeakShows(p, fields, path, a);
    case Arr(items) => r := ItemsLeakShows(p, items, name, path, 0, a);
    case Str(tokens) => r := StringLeakShows(p, tokens, name, path, a);
  }

  lemma {:induction false} FieldsLeakShows(p: Policy, fields: seq<Field>, path: string, a: State) returns (r: Renaming)
    requires FieldsLeak(fields) && FieldsPlain(fields) && SanitizeFields(p, fields, path, a).Ok?
    ensures Admissible(r)
    ensures forall b :: Related(r, a, b) ==>
      Differ(SanitizeFields(p, fields, path, a), SanitizeFields(p, RenameFields(r, fields), path, b))
    decreases fields, 0
  {
    var k, v := fields[0].key, fields[0].value;
    var x := Sanitize(p, v, k, KeyPath(path, k), a);
    if Leaks(v, k) {
      r := LeakShows(p, v, k, KeyPath(path, k), a);
    } else {
      r := FieldsLeakShows(p, fields[1..], path, x.state);
    }
    forall b | Related(r, a, b)
      ensures Differ(SanitizeFields(p, fields, path, a), SanitizeFields(p, RenameFields(r, fields), path, b))
    {
      FieldsRelated(r, p, fields, path, a, b);
      DocumentRelated(r, p, v, k, KeyPath(path, k), a, b);
      assert RenameFields(r, fields)[1..] == RenameFields(r, fields[1..]);
      var xs, ys := SanitizeFields(p, fields, path, a), SanitizeFields(p, RenameFields(r, fields), path, b);
      assert ys.value[0].value != xs.value[0].value || ys.value[1..] != xs.value[1..];
    }
  }

  lemma {:induction false} ItemsLeakShows(p: Policy, items: seq<Json>, name: string, path: string, i: nat, a: State) returns (r: Renaming)
    requires ItemsLeak(items, name) && ItemsPlain(items) && SanitizeItems(p, items, name, path, i, a).Ok?
    ensures Admissible(r)
    ensures forall b :: Related(r, a, b) ==>
      Differ(SanitizeItems(p, items, name, path, i, a), SanitizeItems(p, RenameItems(r, items), name, path, i, b))
    decreases items, 0
  {
    var x := Sanitize(p, items[0], name, IndexPath(path, i), a);
    if Leaks(items[0], name) {
      r := LeakShows(p, items[0], name, IndexPath(path, i), a);
    } else {
      r := ItemsLeakShows(p, items[1..], name, path, i + 1, x.state);
    }
    forall b | Related(r, a, b)
      ensures Differ(SanitizeItems(p, items, name, path, i, a), SanitizeItems(p, RenameItems(r, items), name, path, i, b))
    {
      ItemsRelated(r, p, items, name, path, i, a, b);
      DocumentRelated(r, p, items[0], name, IndexPath(path, i), a, b);
      assert RenameItems(r, items)[1..] == RenameItems(r, items[1..]);
      var xs, ys := SanitizeItems(p, items, name, path, i, a), SanitizeItems(p, RenameItems(r, items), name, path, i, b);
      assert ys.value[0] != xs.value[0] || ys.value[1..] != xs.value[1..];
    }
  }

  // -------------------------------------------------------------- main results

  /** Neither the value, the counts, the redacted names nor the refusal depend
      on the real addresses. */
  ghost predicate Blind(p: Policy, v: Json) {
    forall r: Renaming :: Admissible(r) ==> SameSight(Capture(p, v), Capture(p, Rename(r, v)))
  }

  function Capture(p: Policy, v: Json): Outcome<Json> {
    Sanitize(p, v, "", "$", Fresh())
  }

  ghost predicate SameSight(x: Outcome<Json>, y: Outcome<Json>) {
    match (x, y)
    case (Ok(v, st), Ok(v', st')) => v == v' && st.counts == st'.counts && st.redacted == st'.redacted
    case (Refused(why), Refused(why')) => why == why'
    case _ => false
  }

  /** Some string of the document must not be captured. */
  predicate Forbidden(p: Policy, v: Json, name: string)
    decreases v, 0
  {
    match v
    case Obj(fields) => FieldsForbidden(p, fields)
    case Arr(items) => ItemsForbidden(p, items, name)
    case Str(tokens) => Rendered(tokens) != "" && RefusalOf(p, Rendered(tokens), name).Some?
    case Atom(_) => false
  }

  predicate FieldsForbidden(p: Policy, fields: seq<Field>)
    decreases fields, 0
  {
    fields != [] && (Forbidden(p, fields[0].value, fields[0].key) || FieldsForbidden(p, fields[1..]))
  }

  predicate ItemsForbidden(p: Policy, items: seq<Json>, name: string)
    decreases items, 0
  {
    items != [] && (Forbidden(p, items[0], name) || ItemsForbidden(p, items[1..], name))
  }

  /** A document is refused exactly when one of its strings must be. */
  lemma {:induction false} RefusedExactly(p: Policy, v: Json, name: string, path: string, st: State)
    ensures Sanitize(p, v, name, path, st).Refused? <==> Forbidden(p, v, name)
    decreases v, 0
  {
    match v
    case Obj(fields) => FieldsRefused(p, fields, path, st);
    case Arr(items) => ItemsRefused(p, items, name, path, 0, st);
    case Str(_) =>
    case Atom(_) =>
  }

  lemma {:induction false} FieldsRefused(p: Policy, fields: seq<Field>, path: string, st: State)
    ensures SanitizeFields(p, fields, path, st).Refused? <==> FieldsForbidden(p, fields)
    decreases fields, 0
  {
    if fields != [] {
      var k, v := fields[0].key, fields[0].value;
      RefusedExactly(p, v, k, KeyPath(path, k), st);
      var first := Sanitize(p, v, k, KeyPath(path, k), st);
      if first.Ok? {
        FieldsRefused(p, fields[1..], path, first.state);
      }
    }
  }

  lemma {:induction false} ItemsRefused(p: Policy, items: seq<Json>, name: string, path: string, i: nat, st: State)
    ensures SanitizeItems(p, items, name, path, i, st).Refused? <==> ItemsForbidden(p, items, name)
    decreases items, 0
  {
    if items != [] {
      RefusedExactly(p, items[0], name, IndexPath(path, i), st);
      var first := Sanitize(p, items[0], name, IndexPath(path, i), st);
      if first.Ok? {
        ItemsRefused(p, items[1..], name, path, i + 1, first.state);
      }
    }
  }

  /** The exact condition, for documents whose addresses stand apart from the text
      beside them: such a document is treated blindly exactly when one of its
      strings must be refused or no user-name value in it leaks. */
  lemma BlindExactly(p: Policy, v: Json)
    requires AllPlain(v)
    ensures Blind(p, v) <==> Forbidden(p, v, "") || !Leaks(v, "")
  {
    RefusedExactly(p, v, "", "$", Fresh());
    if Forbidden(p, v, "") || !Leaks(v, "") {
      forall r: Renaming | Admissible(r) ensures SameSight(Capture(p, v), Capture(p, Rename(r, v))) {
        DocumentRelated(r, p, v, "", "$", Fresh(), Fresh());
      }
    } else {
      var r := LeakShows(p, v, "", "$", Fresh());
      assert Related(r, Fresh(), Fresh());
      assert !SameSight(Capture(p, v), Capture(p, Rename(r, v)));
    }
  }

  // ------------------------------------------------------ addresses that touch text

  lemma EmptyNameTested(p: Policy, text: string)
    requires p.hardRefusal == {}
    ensures RefusalOf(p, text, "") ==
            if ContainsAny(text, PEM_MARKERS) then Some(PemKeyMaterial)
            else if LooksLikeCredentialPath(text) then Some(CredentialPathShapedValue)
            else None
  {
    assert forall i :: 0 <= i < |HARD_NAMES| ==> |HARD_NAMES[i]| >= 3;
    assert forall i :: 0 <= i < |SOFT_NAMES| ==> |SOFT_NAMES[i]| >= 3;
    assert |Lower("")| == 0;
  }

  function Touching(before: string, name: string): Tokens {
    [Lit(before), V6(name, None, false)]
  }

  /** Elsewhere the refusal can depend on the address itself: one that is refused
      for one address and not for another, in a document without any leak. */
  lemma TouchingShows(p: Policy, before: string, a: string, b: string)
    requires p.hardRefusal == {} && Spelling(a) && Spelling(b)
    requires RefusalOf(p, before + a, "").Some? && RefusalOf(p, before + b, "").None?
    ensures var v := Str(Touching(before, a));
      WellFormed(Touching(before, a)) && !Leaks(v, "") && Forbidden(p, v, "") && !Blind(p, v)
  {
    var v := Str(Touching(before, a));
    var same4, same := (x: Ipv4) => x, (x: string) => x;
    var r := Renaming(same4, Swap(a, b), same);
    SwapKeeps(a, b);
    TouchingText(before, a);
    TouchingText(before, b);
    assert Touching(before, a)[1..] == [V6(a, None, false)];
    assert RenameTokens(r, Touching(before, a)) == Touching(before, b);
    assert Admissible(r);
    assert !SameSight(Capture(p, v), Capture(p, Rename(r, v)));
  }

  lemma TouchingText(before: string, name: string)
    ensures Rendered(Touching(before, name)) == before + name
  {
    var t := Touching(before, name);
    assert t[1..] == [t[1]] && t[1..][1..] == [];
    assert Rendered(t[1..]) == name + "" == name;
  }

  lemma Incomplete()
    ensures !ContainsAny("BEGIN RSB::1", PEM_MARKERS) && !NamesKeyFile("BEGIN RSB::1")
  {
    var s := "BEGIN RSB::1";
    MissingChar(s, PEM_MARKERS[0], 0);
    MissingChar(s, PEM_MARKERS[1], 8);
    MissingChar(s, PEM_MARKERS[2], 6);
    MissingChar(s, PEM_MARKERS[3], 9);
    assert '.' !in s;
  }

  lemma Complete()
    ensures ContainsAny("BEGIN RSA::1", PEM_MARKERS)
  {
    assert "BEGIN RSA::1"[0..9] == PEM_MARKERS[1];
    assert OccursAt("BEGIN RSA::1", PEM_MARKERS[1], 0);
  }

  /** An address can complete a marker of key material. */
  lemma AddressCompletesMarker(p: Policy)
    requires p.hardRefusal == {}
    ensures !Leaks(Str(Touching("BEGIN RS", "A::1")), "") && !Blind(p, Str(Touching("BEGIN RS", "A::1")))
  {
    assert "BEGIN RS" + "A::1" == "BEGIN RSA::1" && "BEGIN RS" + "B::1" == "BEGIN RSB::1";
    Complete();
    Incomplete();
    EmptyNameTested(p, "BEGIN RSA::1");
    EmptyNameTested(p, "BEGIN RSB::1");
    assert "A::1"[1] == ':' && "B::1"[1] == ':';
    TouchingShows(p, "BEGIN RS", "A::1", "B::1");
  }

  /** And one can end, or run on from, a key file's extension. */
  lemma AddressEndsExtension(p: Policy)
    requires p.hardRefusal == {}
    ensures !Leaks(Str(Touching("/a.key", "::1")), "") && !Blind(p, Str(Touching("/a.key", "::1")))
  {
    assert "/a.key" + "::1" == "/a.key::1" && "/a.key" + "fe80::1" == "/a.keyfe80::1";
    Ends();
    RunsOn();
    EmptyNameTested(p, "/a.key::1");
    EmptyNameTested(p, "/a.keyfe80::1");
    Spellings();
    assert "::1"[0] == ':';
    TouchingShows(p, "/a.key", "::1", "fe80::1");
  }

  lemma Ends()
    ensures LooksLikeCredentialPath("/a.key::1")
  {
    var s := "/a.key::1";
    assert Lower(s[3..6]) == KEY_FILE_EXTENSIONS[0];
    assert KeyFileExtensionAt(s, 2) && s[0] == '/';
  }

  lemma RunsOn()
    ensures !ContainsAny("/a.keyfe80::1", PEM_MARKERS) && !NamesKeyFile("/a.keyfe80::1")
  {
    var s := "/a.keyfe80::1";
    MissingChar(s, PEM_MARKERS[0], 0);
    MissingChar(s, PEM_MARKERS[1], 0);
    MissingChar(s, PEM_MARKERS[2], 0);
    MissingChar(s, PEM_MARKERS[3], 0);
    assert s[6] == 'f' && WordChar(s[6]);
    forall i | 0 <= i < |s| ensures !KeyFileExtensionAt(s, i) {
      assert s[i] == '.' ==> i == 2;
    }
  }
}
