/** What the sanitizer writes in place of every string, and which placeholder
    every address gets (scripts/lib/sanitizer.py), said without its passes. */
module SanitizerMeaning {
  import opened Options
  import opened Text
  import opened Pools
  import opened Allocators
  import opened Sanitizing
  import opened SanitizerSight
  import SanitizerBlindness

  // ------------------------------------------------------ the addresses in order

  function V4Keys(tokens: Tokens): seq<Ipv4> {
    if tokens == [] then []
    else (if tokens[0].V4? then [tokens[0].addr] else []) + V4Keys(tokens[1..])
  }

  function V6Keys(tokens: Tokens): seq<string> {
    if tokens == [] then []
    else (if tokens[0].V6? then [tokens[0].name] else []) + V6Keys(tokens[1..])
  }

  /** An address under the sanitizer's own prefix is not one to replace. */
  predicate ForeignMac(t: Token) {
    t.Mac? && !("02:00:00:" <= t.name)
  }

  function MacKeys(tokens: Tokens): seq<string> {
    if tokens == [] then []
    else (if ForeignMac(tokens[0]) then [tokens[0].name] else []) + MacKeys(tokens[1..])
  }

  predicate Replaceable(t: Token) {
    t.V4? || t.V6? || ForeignMac(t)
  }

  predicate SomeReplaceable(tokens: Tokens) {
    exists i :: 0 <= i < |tokens| && Replaceable(tokens[i])
  }

  // ------------------------------------------------------------- the statement

  datatype Treatment = Untouched | NetgateIdentity | SerialNumber | UserName | Addresses | HostName | Label

  /** How a string is treated, by its field's name and its text. */
  function TreatmentOf(p: Policy, tokens: Tokens, name: string): Treatment {
    var lname := Lower(name);
    if Rendered(tokens) == "" then Untouched
    else if lname == "netgate_id" then NetgateIdentity
    else if lname == "serial" then SerialNumber
    else if lname in {"created_by", "updated_by", "username"} then UserName
    else if SomeReplaceable(tokens) then Addresses
    else if lname in {"hostname", "fqdn", "host_name", "domain"} || StrictHostname(Rendered(tokens)) then HostName
    else if name in p.identifying then Label
    else Untouched
  }

  /** The placeholders given so far. */
  datatype Given = Given(v4: map<Ipv4, Ipv4>, v6: map<string, string>, mac: map<string, string>)

  function GivenIn(st: State): Given {
    Given(st.v4.given, st.v6.given, st.mac.given)
  }

  /** An address becomes its placeholder, with the same prefix length and in the
      same brackets; all other text stays. */
  predicate Replaced(t: Token, out: Token, g: Given) {
    match t
    case Lit(_) => out == t
    case V4(addr, prefix) => addr in g.v4 && out == V4(g.v4[addr], prefix)
    case V6(name, prefix, bracketed) => name in g.v6 && out == V6(g.v6[name], prefix, bracketed)
    case Mac(name) => if ForeignMac(t) then name in g.mac && out == Mac(g.mac[name]) else out == t
  }

  predicate EachReplaced(tokens: Tokens, out: Tokens, g: Given) {
    |out| == |tokens| && forall i :: 0 <= i < |tokens| ==> Replaced(tokens[i], out[i], g)
  }

  /** The same for IPv4 addresses alone. */
  predicate EachV4Replaced(tokens: Tokens, out: Tokens, g: Given) {
    && |out| == |tokens|
    && forall i :: 0 <= i < |tokens| ==> WrittenV4(tokens[i], out[i], g.v4)
  }

  /** The addresses for which a user name keeps its host. */
  function HostKeys(tokens: Tokens): seq<Ipv4> {
    if HasAt(tokens) then V4Keys(AfterAt(tokens)) else []
  }

  /** What is written for a string. */
  predicate Output(p: Policy, tokens: Tokens, name: string, out: Tokens, g: Given) {
    match TreatmentOf(p, tokens, name)
    case Untouched => out == tokens
    case NetgateIdentity => out == [Lit("ANONYMIZED0000000000")]
    case SerialNumber => out == [Lit("SYNTHETIC-SERIAL-0000")]
    case UserName =>
      if HostKeys(tokens) == [] then out == [Lit("admin@"), V4(Ipv4(198, 51, 100, 20), None)]
      else out != [] && out[0] == Lit("admin@") && EachV4Replaced(AfterAt(tokens), out[1..], g)
    case Addresses => EachReplaced(tokens, out, g)
    case HostName => out == [Lit("host.example.invalid")]
    case Label => out == [Lit("REDACTED-" + name)]
  }

  /** What a string adds to the state: addresses used, in order, counts, names. */
  datatype Effect = Effect(v4: seq<Ipv4>, v6: seq<string>, mac: seq<string>, counts: Counts, names: set<string>)

  function NoEffect(): Effect {
    Effect([], [], [], NoCounts(), {})
  }

  function EffectOf(p: Policy, tokens: Tokens, name: string): Effect {
    match TreatmentOf(p, tokens, name)
    case Untouched => NoEffect()
    case NetgateIdentity => Effect([], [], [], NoCounts().(netgateId := 1), {name})
    case SerialNumber => Effect([], [], [], NoCounts().(serial := 1), {name})
    case UserName =>
      var keys := HostKeys(tokens);
      Effect(keys, [], [], NoCounts().(username := 1, ipv4 := |keys|), {name})
    case Addresses =>
      var v4, v6, mac := V4Keys(tokens), V6Keys(tokens), MacKeys(tokens);
      Effect(v4, v6, mac, NoCounts().(ipv4 := |v4|, ipv6 := |v6|, mac := |mac|), if name in p.identifying then {name} else {})
    case HostName => Effect([], [], [], NoCounts().(hostname := 1), {name})
    case Label => Effect([], [], [], NoCounts().(genericRedacted := 1), {name})
  }

  function AllocateFrom<K, P>(pool: Pool<K, P>, nth: nat -> P, keys: seq<K>): Pool<K, P>
    decreases keys
  {
    if keys == [] then pool else AllocateFrom(Allocate(pool, nth, keys[0]), nth, keys[1..])
  }

  function AddCounts(a: Counts, b: Counts): Counts {
    Counts(a.ipv4 + b.ipv4, a.ipv6 + b.ipv6, a.mac + b.mac, a.netgateId + b.netgateId, a.serial + b.serial,
           a.hostname + b.hostname, a.username + b.username, a.genericRedacted + b.genericRedacted)
  }

  function Advance(st: State, e: Effect): State {
    State(
      AllocateFrom(st.v4, NthIpv4, e.v4), AllocateFrom(st.v6, NthIpv6, e.v6), AllocateFrom(st.mac, NthMac, e.mac),
      AddCounts(st.counts, e.counts), st.redacted + e.names)
  }

  // ---------------------------------------------------------------- the passes

  ghost predicate Grown<K(!new), P>(a: Pool<K, P>, b: Pool<K, P>) {
    forall k :: k in a.given ==> k in b.given && b.given[k] == a.given[k]
  }

  lemma {:induction false} AllocateGrows<K(!new), P>(pool: Pool<K, P>, nth: nat -> P, keys: seq<K>)
    ensures Grown(pool, AllocateFrom(pool, nth, keys))
    decreases keys
  {
    if keys != [] {
      AllocateGrows(Allocate(pool, nth, keys[0]), nth, keys[1..]);
    }
  }

  lemma {:induction false} AllocateJoined<K(!new), P>(pool: Pool<K, P>, nth: nat -> P, keys: seq<K>, more: seq<K>)
    ensures AllocateFrom(pool, nth, keys + more) == AllocateFrom(AllocateFrom(pool, nth, keys), nth, more)
    decreases keys
  {
    if keys == [] {
      assert keys + more == more;
    } else {
      assert (keys + more)[1..] == keys[1..] + more;
      AllocateJoined(Allocate(pool, nth, keys[0]), nth, keys[1..], more);
    }
  }

  /** Allocation from the start is the one whose outcome first uses decide. */
  lemma {:induction false} AllocateFromStart<K(!new), P>(nth: nat -> P, keys: seq<K>)
    ensures AllocateFrom(Pool(map[], 0), nth, keys) == AllocateAll(nth, keys)
  {
    if keys != [] {
      var before, last := keys[..|keys| - 1], keys[|keys| - 1];
      AllocateFromStart(nth, before);
      assert keys == before + [last];
      AllocateJoined(Pool(map[], 0), nth, before, [last]);
      AllocateOne(AllocateFrom(Pool(map[], 0), nth, before), nth, last);
    }
  }

  lemma AllocateOne<K, P>(pool: Pool<K, P>, nth: nat -> P, key: K)
    ensures AllocateFrom(pool, nth, [key]) == Allocate(pool, nth, key)
  {
    assert [key][1..] == [];
  }

  lemma AllocateCons<K, P>(pool: Pool<K, P>, nth: nat -> P, key: K, keys: seq<K>)
    ensures AllocateFrom(pool, nth, [key] + keys) == AllocateFrom(Allocate(pool, nth, key), nth, keys)
  {
    assert ([key] + keys)[1..] == keys;
  }

  lemma {:induction false} PassV4Counts(tokens: Tokens, pool: Pool<Ipv4, Ipv4>)
    ensures var r := PassV4(tokens, pool);
      r.pool == AllocateFrom(pool, NthIpv4, V4Keys(tokens)) && r.count == |V4Keys(tokens)|
    decreases tokens
  {
    if tokens != [] {
      var first := StepV4(tokens[0], pool);
      var keys := V4Keys(tokens[1..]);
      PassV4Counts(tokens[1..], first.pool);
      if tokens[0].V4? {
        assert V4Keys(tokens) == [tokens[0].addr] + keys;
        AllocateCons(pool, NthIpv4, tokens[0].addr, keys);
      } else {
        assert V4Keys(tokens) == keys;
      }
    }
  }

  predicate WrittenV4(t: Token, out: Token, given: map<Ipv4, Ipv4>) {
    if t.V4? then t.addr in given && out == V4(given[t.addr], t.prefix) else out == t
  }

  lemma {:induction false} PassV4Writes(tokens: Tokens, pool: Pool<Ipv4, Ipv4>, i: nat)
    requires i < |tokens|
    ensures var r := PassV4(tokens, pool); WrittenV4(tokens[i], r.tokens[i], r.pool.given)
    decreases tokens
  {
    var first := StepV4(tokens[0], pool);
    var rest := PassV4(tokens[1..], first.pool);
    assert PassV4(tokens, pool).tokens == [first.token] + rest.tokens;
    if i > 0 {
      PassV4Writes(tokens[1..], first.pool, i - 1);
    } else {
      PassV4Counts(tokens[1..], first.pool);
      AllocateGrows(first.pool, NthIpv4, V4Keys(tokens[1..]));
      assert Grown(first.pool, rest.pool);
    }
  }

  lemma {:induction false} PassV6Counts(tokens: Tokens, pool: Pool<string, string>)
    ensures var r := PassV6(tokens, pool);
      r.pool == AllocateFrom(pool, NthIpv6, V6Keys(tokens)) && r.count == |V6Keys(tokens)|
    decreases tokens
  {
    if tokens != [] {
      var first := StepV6(tokens[0], pool);
      var keys := V6Keys(tokens[1..]);
      PassV6Counts(tokens[1..], first.pool);
      if tokens[0].V6? {
        assert V6Keys(tokens) == [tokens[0].name] + keys;
        AllocateCons(pool, NthIpv6, tokens[0].name, keys);
      } else {
        assert V6Keys(tokens) == keys;
      }
    }
  }

  predicate WrittenV6(t: Token, out: Token, given: map<string, string>) {
    if t.V6? then t.name in given && out == V6(given[t.name], t.prefix, t.bracketed) else out == t
  }

  lemma {:induction false} PassV6Writes(tokens: Tokens, pool: Pool<string, string>, i: nat)
    requires i < |tokens|
    ensures var r := PassV6(tokens, pool); WrittenV6(tokens[i], r.tokens[i], r.pool.given)
    decreases tokens
  {
    var first := StepV6(tokens[0], pool);
    var rest := PassV6(tokens[1..], first.pool);
    assert PassV6(tokens, pool).tokens == [first.token] + rest.tokens;
    if i > 0 {
      PassV6Writes(tokens[1..], first.pool, i - 1);
    } else {
      PassV6Counts(tokens[1..], first.pool);
      AllocateGrows(first.pool, NthIpv6, V6Keys(tokens[1..]));
      assert Grown(first.pool, rest.pool);
    }
  }

  lemma {:induction false} PassMacCounts(tokens: Tokens, pool: Pool<string, string>)
    ensures var r := PassMac(tokens, pool);
      r.pool == AllocateFrom(pool, NthMac, MacKeys(tokens)) && r.count == |MacKeys(tokens)|
    decreases tokens
  {
    if tokens != [] {
      var first := StepMac(tokens[0], pool);
      var keys := MacKeys(tokens[1..]);
      PassMacCounts(tokens[1..], first.pool);
      if ForeignMac(tokens[0]) {
        assert MacKeys(tokens) == [tokens[0].name] + keys;
        AllocateCons(pool, NthMac, tokens[0].name, keys);
      } else {
        assert MacKeys(tokens) == keys;
      }
    }
  }

  predicate WrittenMac(t: Token, out: Token, given: map<string, string>) {
    if ForeignMac(t) then t.name in given && out == Mac(given[t.name]) else out == t
  }

  lemma {:induction false} PassMacWrites(tokens: Tokens, pool: Pool<string, string>, i: nat)
    requires i < |tokens|
    ensures var r := PassMac(tokens, pool); WrittenMac(tokens[i], r.tokens[i], r.pool.given)
    decreases tokens
  {
    var first := StepMac(tokens[0], pool);
    var rest := PassMac(tokens[1..], first.pool);
    assert PassMac(tokens, pool).tokens == [first.token] + rest.tokens;
    if i > 0 {
      PassMacWrites(tokens[1..], first.pool, i - 1);
    } else {
      PassMacCounts(tokens[1..], first.pool);
      AllocateGrows(first.pool, NthMac, MacKeys(tokens[1..]));
      assert Grown(first.pool, rest.pool);
    }
  }

  /** A pass leaves the addresses of the other kinds for theirs. */
  lemma {:induction false} SameV6Keys(a: Tokens, b: Tokens)
    requires |a| == |b|
    requires forall i :: 0 <= i < |a| && (a[i].V6? || b[i].V6?) ==> a[i] == b[i]
    ensures V6Keys(a) == V6Keys(b)
  {
    if a != [] {
      assert forall i :: 0 <= i < |a[1..]| ==> a[1..][i] == a[i + 1] && b[1..][i] == b[i + 1];
      assert a[0].V6? || b[0].V6? ==> a[0] == b[0];
      SameV6Keys(a[1..], b[1..]);
    }
  }

  lemma {:induction false} SameMacKeys(a: Tokens, b: Tokens)
    requires |a| == |b|
    requires forall i :: 0 <= i < |a| && (a[i].Mac? || b[i].Mac?) ==> a[i] == b[i]
    ensures MacKeys(a) == MacKeys(b)
  {
    if a != [] {
      assert forall i :: 0 <= i < |a[1..]| ==> a[1..][i] == a[i + 1] && b[1..][i] == b[i + 1];
      assert a[0].Mac? || b[0].Mac? ==> a[0] == b[0];
      SameMacKeys(a[1..], b[1..]);
    }
  }

  lemma {:induction false} KeysPresent(tokens: Tokens)
    ensures |V4Keys(tokens)| + |V6Keys(tokens)| + |MacKeys(tokens)| > 0 <==> SomeReplaceable(tokens)
  {
    if tokens != [] {
      KeysPresent(tokens[1..]);
      if SomeReplaceable(tokens[1..]) {
        var i :| 0 <= i < |tokens[1..]| && Replaceable(tokens[1..][i]);
        assert Replaceable(tokens[i + 1]);
      }
      if SomeReplaceable(tokens) {
        var i :| 0 <= i < |tokens| && Replaceable(tokens[i]);
        assert i > 0 ==> Replaceable(tokens[1..][i - 1]);
      }
    }
  }

  /** The effect of replacing every address. */
  function AddressEffect(tokens: Tokens): Effect {
    var v4, v6, mac := V4Keys(tokens), V6Keys(tokens), MacKeys(tokens);
    Effect(v4, v6, mac, NoCounts().(ipv4 := |v4|, ipv6 := |v6|, mac := |mac|), {})
  }

  /** The three passes together. */
  lemma PassesWrite(tokens: Tokens, st: State)
    ensures var four := PassV4(tokens, st.v4);
      var six := PassV6(four.tokens, st.v6);
      var mac := PassMac(six.tokens, st.mac);
      EachReplaced(tokens, mac.tokens, Given(four.pool.given, six.pool.given, mac.pool.given))
  {
    var four := PassV4(tokens, st.v4);
    var six := PassV6(four.tokens, st.v6);
    var mac := PassMac(six.tokens, st.mac);
    var g := Given(four.pool.given, six.pool.given, mac.pool.given);
    forall i | 0 <= i < |tokens| ensures Replaced(tokens[i], mac.tokens[i], g) {
      PassV4Writes(tokens, st.v4, i);
      PassV6Writes(four.tokens, st.v6, i);
      PassMacWrites(six.tokens, st.mac, i);
    }
  }

  lemma PassesKeepKeys(tokens: Tokens, st: State)
    ensures var four := PassV4(tokens, st.v4).tokens; var six := PassV6(four, st.v6).tokens;
      V6Keys(four) == V6Keys(tokens) && MacKeys(six) == MacKeys(tokens)
  {
    var four := PassV4(tokens, st.v4).tokens;
    var six := PassV6(four, st.v6).tokens;
    forall i | 0 <= i < |tokens|
      ensures four[i].V6? || tokens[i].V6? ==> four[i] == tokens[i]
      ensures six[i].Mac? || tokens[i].Mac? ==> six[i] == tokens[i]
    {
      PassV4Writes(tokens, st.v4, i);
      PassV6Writes(four, st.v6, i);
    }
    SameV6Keys(four, tokens);
    SameMacKeys(six, tokens);
  }

  lemma PassesCount(tokens: Tokens, st: State)
    ensures var four := PassV4(tokens, st.v4);
      var six := PassV6(four.tokens, st.v6);
      var mac := PassMac(six.tokens, st.mac);
      && four.pool == AllocateFrom(st.v4, NthIpv4, V4Keys(tokens)) && four.count == |V4Keys(tokens)|
      && six.pool == AllocateFrom(st.v6, NthIpv6, V6Keys(tokens)) && six.count == |V6Keys(tokens)|
      && mac.pool == AllocateFrom(st.mac, NthMac, MacKeys(tokens)) && mac.count == |MacKeys(tokens)|
  {
    var four := PassV4(tokens, st.v4);
    var six := PassV6(four.tokens, st.v6);
    PassesKeepKeys(tokens, st);
    PassV4Counts(tokens, st.v4);
    PassV6Counts(four.tokens, st.v6);
    PassMacCounts(six.tokens, st.mac);
  }

  lemma ReplacementMeans(tokens: Tokens, st: State)
    ensures var s := ReplaceAddresses(tokens, st);
      && EachReplaced(tokens, s.tokens, GivenIn(s.state))
      && s.state == Advance(st, AddressEffect(tokens))
      && s.changed == SomeReplaceable(tokens)
  {
    PassesWrite(tokens, st);
    PassesCount(tokens, st);
    KeysPresent(tokens);
  }

  lemma NothingToReplace(tokens: Tokens, out: Tokens, g: Given, st: State)
    requires EachReplaced(tokens, out, g) && !SomeReplaceable(tokens)
    ensures out == tokens && Advance(st, AddressEffect(tokens)) == st
  {
    assert forall i :: 0 <= i < |tokens| ==> !Replaceable(tokens[i]) && out[i] == tokens[i];
    KeysPresent(tokens);
  }

  // -------------------------------------------------------------- string level

  predicate HostLike(tokens: Tokens, name: string) {
    Lower(name) in {"hostname", "fqdn", "host_name", "domain"} || StrictHostname(Rendered(tokens))
  }

  lemma GenericMeans(tokens: Tokens, name: string, st: State)
    ensures var s := SubstituteGeneric(tokens, name, st);
      if SomeReplaceable(tokens) then
        s.changed && EachReplaced(tokens, s.tokens, GivenIn(s.state)) && s.state == Advance(st, AddressEffect(tokens))
      else if HostLike(tokens, name) then
        s == Substituted([Lit("host.example.invalid")], Advance(st, Effect([], [], [], NoCounts().(hostname := 1), {name})), true)
      else s == Substituted(tokens, st, false)
  {
    ReplacementMeans(tokens, st);
    if !SomeReplaceable(tokens) {
      var s := ReplaceAddresses(tokens, st);
      NothingToReplace(tokens, s.tokens, GivenIn(s.state), st);
    }
  }

  lemma UsernameMeans(tokens: Tokens, st: State)
    ensures var s := SubstituteUsername(tokens, st); var keys := HostKeys(tokens);
      && s.state == Advance(st, Effect(keys, [], [], NoCounts().(username := 1, ipv4 := |keys|), {}))
      && if keys == [] then s.tokens == [Lit("admin@"), V4(Ipv4(198, 51, 100, 20), None)]
         else s.tokens != [] && s.tokens[0] == Lit("admin@") &&
              EachV4Replaced(AfterAt(tokens), s.tokens[1..], GivenIn(s.state))
  {
    if HasAt(tokens) {
      var host := AfterAt(tokens);
      PassV4Counts(host, st.v4);
      forall i | 0 <= i < |host| ensures WrittenV4(host[i], PassV4(host, st.v4).tokens[i], PassV4(host, st.v4).pool.given) {
        PassV4Writes(host, st.v4, i);
      }
      assert ([Lit("admin@")] + PassV4(host, st.v4).tokens)[1..] == PassV4(host, st.v4).tokens;
    }
  }

  predicate Meant(p: Policy, tokens: Tokens, name: string, st: State, out: Tokens, after: State) {
    Output(p, tokens, name, out, GivenIn(after)) && after == Advance(st, EffectOf(p, tokens, name))
  }

  lemma OtherTreatment(p: Policy, tokens: Tokens, name: string)
    requires Rendered(tokens) != "" && KindOf(name).OtherIdentifying?
    ensures TreatmentOf(p, tokens, name) ==
            if SomeReplaceable(tokens) then Addresses
            else if HostLike(tokens, name) then HostName
            else if name in p.identifying then Label
            else Untouched
  {
  }

  lemma UserNameTreatment(p: Policy, tokens: Tokens, name: string)
    requires Rendered(tokens) != "" && KindOf(name).Username?
    ensures TreatmentOf(p, tokens, name) == UserName && Identifying(p, name)
  {
  }

  lemma UserNameMeant(p: Policy, tokens: Tokens, name: string, st: State)
    requires Rendered(tokens) != "" && KindOf(name).Username?
    ensures var s := SubstituteIdentifying(tokens, name, st); Meant(p, tokens, name, st, s.tokens, s.state)
  {
    UserNameTreatment(p, tokens, name);
    UsernameMeans(tokens, st.(redacted := st.redacted + {name}));
  }

  lemma ConstantMeant(p: Policy, tokens: Tokens, name: string, st: State)
    requires Rendered(tokens) != "" && (KindOf(name).NetgateId? || KindOf(name).Serial?)
    ensures var s := Substitute(p, tokens, name, st); Meant(p, tokens, name, st, s.tokens, s.state)
  {
  }

  /** Marking the name commutes with everything else. */
  lemma MarkedAdvance(st: State, e: Effect, name: string)
    ensures var after := Advance(st, e); after.(redacted := after.redacted + {name}) == Advance(st, e.(names := e.names + {name}))
  {
  }

  lemma IdentifyingMeant(p: Policy, tokens: Tokens, name: string, st: State)
    requires Rendered(tokens) != "" && KindOf(name).OtherIdentifying? && name in p.identifying
    ensures var s := SubstituteIdentifying(tokens, name, st); Meant(p, tokens, name, st, s.tokens, s.state)
  {
    OtherTreatment(p, tokens, name);
    GenericMeans(tokens, name, st);
    if SomeReplaceable(tokens) {
      MarkedAdvance(st, AddressEffect(tokens), name);
    } else if HostLike(tokens, name) {
      MarkedAdvance(st, Effect([], [], [], NoCounts().(hostname := 1), {name}), name);
    }
  }

  lemma OtherMeant(p: Policy, tokens: Tokens, name: string, st: State)
    requires Rendered(tokens) != "" && KindOf(name).OtherIdentifying? && name !in p.identifying
    ensures var s := SubstituteGeneric(tokens, name, st); Meant(p, tokens, name, st, s.tokens, s.state)
  {
    OtherTreatment(p, tokens, name);
    GenericMeans(tokens, name, st);
  }

  lemma KindDecides(p: Policy, name: string)
    ensures Identifying(p, name) <==> name in p.identifying || !KindOf(name).OtherIdentifying?
  {
  }

  /** Every string that is not refused is written and accounted for as stated. */
  lemma StringMeans(p: Policy, tokens: Tokens, name: string, path: string, st: State)
    ensures var r := SanitizeString(p, tokens, name, path, st); r.Ok? ==> Meant(p, tokens, name, st, r.value, r.state)
  {
    if Rendered(tokens) != "" {
      KindDecides(p, name);
      match KindOf(name)
      case NetgateId => ConstantMeant(p, tokens, name, st);
      case Serial => ConstantMeant(p, tokens, name, st);
      case Username => UserNameMeant(p, tokens, name, st);
      case OtherIdentifying =>
        if name in p.identifying {
          IdentifyingMeant(p, tokens, name, st);
        } else {
          OtherMeant(p, tokens, name, st);
        }
    }
  }

  // ------------------------------------------------------------ document level

  function Plus(a: Effect, b: Effect): Effect {
    Effect(a.v4 + b.v4, a.v6 + b.v6, a.mac + b.mac, AddCounts(a.counts, b.counts), a.names + b.names)
  }

  /** The effects of a document's strings, in order. */
  function EffectIn(p: Policy, v: Json, name: string): Effect
    decreases v, 0
  {
    match v
    case Obj(fields) => EffectInFields(p, fields)
    case Arr(items) => EffectInItems(p, items, name)
    case Str(tokens) => EffectOf(p, tokens, name)
    case Atom(_) => NoEffect()
  }

  function EffectInFields(p: Policy, fields: seq<Field>): Effect
    decreases fields, 0
  {
    if fields == [] then NoEffect()
    else Plus(EffectIn(p, fields[0].value, fields[0].key), EffectInFields(p, fields[1..]))
  }

  function EffectInItems(p: Policy, items: seq<Json>, name: string): Effect
    decreases items, 0
  {
    if items == [] then NoEffect() else Plus(EffectIn(p, items[0], name), EffectInItems(p, items[1..], name))
  }

  /** The same document with every string written as stated: keys, order and all
      other values stay. */
  predicate OutputIn(p: Policy, v: Json, name: string, out: Json, g: Given)
    decreases v, 0
  {
    match v
    case Obj(fields) => out.Obj? && OutputInFields(p, fields, out.fields, g)
    case Arr(items) => out.Arr? && OutputInItems(p, items, name, out.items, g)
    case Str(tokens) => out.Str? && Output(p, tokens, name, out.tokens, g)
    case Atom(_) => out == v
  }

  predicate OutputInFields(p: Policy, fields: seq<Field>, out: seq<Field>, g: Given)
    decreases fields, 0
  {
    if fields == [] then out == []
    else
      && out != [] && out[0].key == fields[0].key
      && OutputIn(p, fields[0].value, fields[0].key, out[0].value, g)
      && OutputInFields(p, fields[1..], out[1..], g)
  }

  predicate OutputInItems(p: Policy, items: seq<Json>, name: string, out: seq<Json>, g: Given)
    decreases items, 0
  {
    if items == [] then out == []
    else out != [] && OutputIn(p, items[0], name, out[0], g) && OutputInItems(p, items[1..], name, out[1..], g)
  }

  ghost predicate AllGrown(a: State, b: State) {
    Grown(a.v4, b.v4) && Grown(a.v6, b.v6) && Grown(a.mac, b.mac)
  }

  lemma AdvanceGrows(st: State, e: Effect)
    ensures AllGrown(st, Advance(st, e))
  {
    AllocateGrows(st.v4, NthIpv4, e.v4);
    AllocateGrows(st.v6, NthIpv6, e.v6);
    AllocateGrows(st.mac, NthMac, e.mac);
  }

  lemma CountsJoined(a: Counts, b: Counts, c: Counts)
    ensures AddCounts(AddCounts(a, b), c) == AddCounts(a, AddCounts(b, c))
  {
  }

  lemma AdvancePlus(st: State, a: Effect, b: Effect)
    ensures Advance(Advance(st, a), b) == Advance(st, Plus(a, b))
  {
    AllocateJoined(st.v4, NthIpv4, a.v4, b.v4);
    AllocateJoined(st.v6, NthIpv6, a.v6, b.v6);
    AllocateJoined(st.mac, NthMac, a.mac, b.mac);
    CountsJoined(st.counts, a.counts, b.counts);
  }

  lemma AdvanceNothing(st: State)
    ensures Advance(st, NoEffect()) == st
  {
  }

  lemma ReplacedStays(tokens: Tokens, out: Tokens, a: State, b: State)
    requires AllGrown(a, b)
    ensures EachReplaced(tokens, out, GivenIn(a)) ==> EachReplaced(tokens, out, GivenIn(b))
    ensures EachV4Replaced(tokens, out, GivenIn(a)) ==> EachV4Replaced(tokens, out, GivenIn(b))
  {
    if EachReplaced(tokens, out, GivenIn(a)) {
      forall i | 0 <= i < |tokens| ensures Replaced(tokens[i], out[i], GivenIn(b)) {
        assert Replaced(tokens[i], out[i], GivenIn(a));
      }
    }
  }

  /** A placeholder once given stays. */
  lemma OutputStays(p: Policy, tokens: Tokens, name: string, out: Tokens, a: State, b: State)
    requires AllGrown(a, b) && Output(p, tokens, name, out, GivenIn(a))
    ensures Output(p, tokens, name, out, GivenIn(b))
  {
    ReplacedStays(tokens, out, a, b);
    if out != [] {
      ReplacedStays(AfterAt(tokens), out[1..], a, b);
    }
  }

  /** Every document that is not refused is written as stated, with the
      placeholders as any later state gives them. */
  lemma {:induction false} DocumentMeans(p: Policy, v: Json, name: string, path: string, st: State, later: State)
    ensures var r := Sanitize(p, v, name, path, st);
      r.Ok? ==>
        && r.state == Advance(st, EffectIn(p, v, name))
        && (AllGrown(r.state, later) ==> OutputIn(p, v, name, r.value, GivenIn(later)))
    decreases v, 0
  {
    match v
    case Obj(fields) => FieldsMean(p, fields, path, st, later);
    case Arr(items) => ItemsMean(p, items, name, path, 0, st, later);
    case Str(tokens) =>
      StringMeans(p, tokens, name, path, st);
      var r := SanitizeString(p, tokens, name, path, st);
      if r.Ok? && AllGrown(r.state, later) {
        OutputStays(p, tokens, name, r.value, r.state, later);
      }
    case Atom(_) => AdvanceNothing(st);
  }

  lemma {:induction false} FieldsMean(p: Policy, fields: seq<Field>, path: string, st: State, later: State)
    ensures var r := SanitizeFields(p, fields, path, st);
      r.Ok? ==>
        && r.state == Advance(st, EffectInFields(p, fields))
        && (AllGrown(r.state, later) ==> OutputInFields(p, fields, r.value, GivenIn(later)))
    decreases fields, 0
  {
    if fields == [] {
      AdvanceNothing(st);
    } else {
      var k, v := fields[0].key, fields[0].value;
      var first := Sanitize(p, v, k, KeyPath(path, k), st);
      DocumentMeans(p, v, k, KeyPath(path, k), st, later);
      if first.Ok? {
        FieldsMean(p, fields[1..], path, first.state, later);
        var rest := SanitizeFields(p, fields[1..], path, first.state);
        if rest.Ok? {
          FieldsJoined(p, fields, st, first.value, first.state, rest.value, rest.state, later);
        }
      }
    }
  }

  lemma {:induction false} ItemsMean(p: Policy, items: seq<Json>, name: string, path: string, i: nat, st: State, later: State)
    ensures var r := SanitizeItems(p, items, name, path, i, st);
      r.Ok? ==>
        && r.state == Advance(st, EffectInItems(p, items, name))
        && (AllGrown(r.state, later) ==> OutputInItems(p, items, name, r.value, GivenIn(later)))
    decreases items, 0
  {
    if items == [] {
      AdvanceNothing(st);
    } else {
      var first := Sanitize(p, items[0], name, IndexPath(path, i), st);
      DocumentMeans(p, items[0], name, IndexPath(path, i), st, later);
      if first.Ok? {
        ItemsMean(p, items[1..], name, path, i + 1, first.state, later);
        var rest := SanitizeItems(p, items[1..], name, path, i + 1, first.state);
        if rest.Ok? {
          ItemsJoined(p, items, name, st, first.value, first.state, rest.value, rest.state, later);
        }
      }
    }
  }

  lemma FieldsJoined(p: Policy, fields: seq<Field>, st: State, v: Json, mid: State, rest: seq<Field>, end: State, later: State)
    requires fields != []
    requires mid == Advance(st, EffectIn(p, fields[0].value, fields[0].key))
    requires end == Advance(mid, EffectInFields(p, fields[1..]))
    requires AllGrown(mid, later) ==> OutputIn(p, fields[0].value, fields[0].key, v, GivenIn(later))
    requires AllGrown(end, later) ==> OutputInFields(p, fields[1..], rest, GivenIn(later))
    ensures end == Advance(st, EffectInFields(p, fields))
    ensures AllGrown(end, later) ==> OutputInFields(p, fields, [Field(fields[0].key, v)] + rest, GivenIn(later))
  {
    AdvancePlus(st, EffectIn(p, fields[0].value, fields[0].key), EffectInFields(p, fields[1..]));
    AdvanceGrows(mid, EffectInFields(p, fields[1..]));
    assert ([Field(fields[0].key, v)] + rest)[1..] == rest;
  }

  lemma ItemsJoined(
      p: Policy, items: seq<Json>, name: string, st: State, v: Json, mid: State, rest: seq<Json>, end: State, later: State)
    requires items != []
    requires mid == Advance(st, EffectIn(p, items[0], name)) && end == Advance(mid, EffectInItems(p, items[1..], name))
    requires AllGrown(mid, later) ==> OutputIn(p, items[0], name, v, GivenIn(later))
    requires AllGrown(end, later) ==> OutputInItems(p, items[1..], name, rest, GivenIn(later))
    ensures end == Advance(st, EffectInItems(p, items, name))
    ensures AllGrown(end, later) ==> OutputInItems(p, items, name, [v] + rest, GivenIn(later))
  {
    AdvancePlus(st, EffectIn(p, items[0], name), EffectInItems(p, items[1..], name));
    AdvanceGrows(mid, EffectInItems(p, items[1..], name));
    assert ([v] + rest)[1..] == rest;
  }

  /** The i-th distinct key of a kind has the i-th placeholder, and no other key
      has one. */
  ghost predicate InOrderOfUse<K(!new), P>(given: map<K, P>, nth: nat -> P, keys: seq<K>) {
    var firsts := FirstUses(keys);
    && (forall k :: k in given <==> k in keys)
    && forall i :: 0 <= i < |firsts| ==> firsts[i] in given && given[firsts[i]] == nth(i)
  }

  lemma FromStartInOrder<K(!new), P>(nth: nat -> P, keys: seq<K>)
    ensures InOrderOfUse(AllocateFrom(Pool(map[], 0), nth, keys).given, nth, keys)
  {
    AllocateFromStart(nth, keys);
    FirstUseDecides(nth, keys);
  }

  lemma FreshCounts(c: Counts)
    ensures AddCounts(NoCounts(), c) == c
  {
  }

  /** The counts and redacted names are the effect's own, and every address it
      uses is known by the position of its first use. */
  ghost predicate Accounted(st: State, e: Effect) {
    && st.counts == e.counts && st.redacted == e.names
    && InOrderOfUse(st.v4.given, NthIpv4, e.v4)
    && InOrderOfUse(st.v6.given, NthIpv6, e.v6)
    && InOrderOfUse(st.mac.given, NthMac, e.mac)
  }

  lemma AdvanceFresh(e: Effect)
    ensures Accounted(Advance(Fresh(), e), e)
  {
    FreshCounts(e.counts);
    FromStartInOrder(NthIpv4, e.v4);
    FromStartInOrder(NthIpv6, e.v6);
    FromStartInOrder(NthMac, e.mac);
  }

  /** A captured document: every string as stated, every address by the position
      of its first use among those replaced, and the counts and redacted names
      those of all the strings together. */
  lemma CaptureMeans(p: Policy, v: Json)
    ensures var r := SanitizerBlindness.Capture(p, v);
      r.Ok? ==> OutputIn(p, v, "", r.value, GivenIn(r.state)) && Accounted(r.state, EffectIn(p, v, ""))
  {
    var r := SanitizerBlindness.Capture(p, v);
    if r.Ok? {
      DocumentMeans(p, v, "", "$", Fresh(), r.state);
      AdvanceFresh(EffectIn(p, v, ""));
    }
  }

  /** The address counts are the numbers of addresses replaced. */
  predicate CountsAddresses(e: Effect) {
    e.counts.ipv4 == |e.v4| && e.counts.ipv6 == |e.v6| && e.counts.mac == |e.mac|
  }

  lemma {:induction false} AddressesCounted(p: Policy, v: Json, name: string)
    ensures CountsAddresses(EffectIn(p, v, name))
    decreases v, 0
  {
    match v
    case Obj(fields) => FieldsCounted(p, fields);
    case Arr(items) => ItemsCounted(p, items, name);
    case Str(_) =>
    case Atom(_) =>
  }

  lemma {:induction false} FieldsCounted(p: Policy, fields: seq<Field>)
    ensures CountsAddresses(EffectInFields(p, fields))
    decreases fields, 0
  {
    if fields != [] {
      AddressesCounted(p, fields[0].value, fields[0].key);
      FieldsCounted(p, fields[1..]);
    }
  }

  lemma {:induction false} ItemsCounted(p: Policy, items: seq<Json>, name: string)
    ensures CountsAddresses(EffectInItems(p, items, name))
    decreases items, 0
  {
    if items != [] {
      AddressesCounted(p, items[0], name);
      ItemsCounted(p, items[1..], name);
    }
  }

  // --------------------------------------------------------- the host of a name

  /** The first '@' of a string stands at `j` in its `i`-th piece. */
  predicate FirstAt(tokens: Tokens, i: nat, j: nat) {
    && i < |tokens| && tokens[i].Lit?
    && j < |tokens[i].text| && tokens[i].text[j] == '@' && '@' !in tokens[i].text[..j]
    && forall k :: 0 <= k < i && tokens[k].Lit? ==> '@' !in tokens[k].text
  }

  function HostAt(tokens: Tokens, i: nat, j: nat): Tokens
    requires FirstAt(tokens, i, j)
  {
    [Lit(tokens[i].text[j + 1..])] + tokens[i + 1..]
  }

  /** The host is what follows the first '@', its addresses intact. */
  lemma {:induction false} HostExactly(tokens: Tokens, i: nat, j: nat)
    requires FirstAt(tokens, i, j)
    ensures HasAt(tokens) && AfterAt(tokens) == HostAt(tokens, i, j)
    decreases tokens
  {
    if i == 0 {
      BeforeAt(tokens[0].text, j);
    } else {
      assert tokens[0].Lit? ==> '@' !in tokens[0].text;
      assert forall k :: 0 <= k < i - 1 ==> tokens[1..][k] == tokens[k + 1];
      HostExactly(tokens[1..], i - 1, j);
    }
  }

  lemma BeforeAt(s: string, j: nat)
    requires j < |s| && s[j] == '@' && '@' !in s[..j]
    ensures |Before(s, '@')| == j
  {
    var r := Before(s, '@');
    assert s[j] in s;
    assert forall k :: 0 <= k < j ==> s[..j][k] == s[k];
    assert forall k :: 0 <= k < |r| ==> r[k] == s[k];
  }

  lemma {:induction false} AtFound(tokens: Tokens) returns (i: nat, j: nat)
    requires HasAt(tokens)
    ensures FirstAt(tokens, i, j)
    decreases tokens
  {
    if tokens[0].Lit? && '@' in tokens[0].text {
      i, j := 0, |Before(tokens[0].text, '@')|;
      assert tokens[0].text[..j] == Before(tokens[0].text, '@');
    } else {
      i, j := AtFound(tokens[1..]);
      i := i + 1;
      assert tokens[i] == tokens[1..][i - 1];
    }
  }

  /** `host` is the text after the first '@' of `s`. */
  predicate HostText(s: string, host: string) {
    '@' in s && |Before(s, '@')| < |s| && s[|Before(s, '@')| + 1..] == host
  }

  lemma HostTextAfter(text: string, rest: string, host: string)
    requires '@' !in text
    ensures HostText(rest, host) ==> HostText(text + rest, host)
  {
    BeforeAppend(text, rest, '@');
  }

  lemma HostTextWithin(text: string, rest: string)
    requires '@' in text
    ensures HostText(text + rest, text[|Before(text, '@')| + 1..] + rest)
  {
    BeforeAppend(text, rest, '@');
    var n := |Before(text, '@')|;
    assert (text + rest)[n + 1..] == text[n + 1..] + rest;
  }

  /** In terms of the text: the host is all of it after the first '@'. */
  lemma {:induction false} AtText(tokens: Tokens)
    requires WellFormed(tokens)
    ensures HasAt(tokens) <==> '@' in Rendered(tokens)
    ensures HasAt(tokens) ==> HostText(Rendered(tokens), Rendered(AfterAt(tokens)))
    decreases tokens
  {
    if tokens != [] {
      var text, rest := TokenText(tokens[0]), Rendered(tokens[1..]);
      assert WellFormed(tokens[1..]);
      AtText(tokens[1..]);
      if !tokens[0].Lit? {
        AddressHasNoAt(tokens[0]);
      }
      if '@' in text {
        HostTextWithin(text, rest);
        ConsText(Lit(text[|Before(text, '@')| + 1..]), tokens[1..]);
      } else {
        HostTextAfter(text, rest, Rendered(AfterAt(tokens)));
      }
    }
  }

  lemma AddressHasNoAt(t: Token)
    requires WellFormedToken(t) && !t.Lit?
    ensures '@' !in TokenText(t)
  {
    TokenLike(t);
    assert forall k :: 0 <= k < |TokenText(t)| ==> AddressChar(TokenText(t)[k]);
  }

  lemma ConsText(t: Token, rest: Tokens)
    ensures Rendered([t] + rest) == TokenText(t) + Rendered(rest)
  {
    assert ([t] + rest)[1..] == rest;
  }
}
