/** The independent audit of sanitized data (scripts/lib/sanitizer.py,
    scripts/lib/security_policy.py) and its agreement with the sanitizer. */
module SanitizerAudit {
  import opened Options
  import opened Text
  import opened Numerals
  import opened Pools
  import opened Allocators
  import opened Sanitizing
  import opened SanitizerSight
  import SanitizerBlindness

  datatype Problem =
    | ProhibitedField(path: string)
    | UnsafeIpv4
    | UnsafeMac
    | SensitiveName(path: string, name: string)

  const PROHIBITED: set<string> := {"ipsecpsk", "password", "key"}

  function ProhibitedFields(v: Json, path: string): seq<Problem>
    decreases v, 0
  {
    match v
    case Obj(fields) => ProhibitedInFields(fields, path)
    case Arr(items) => ProhibitedInItems(items, path, 0)
    case Str(_) => []
    case Atom(_) => []
  }

  function ProhibitedInFields(fields: seq<Field>, path: string): seq<Problem>
    decreases fields, 0
  {
    if fields == [] then []
    else
      var here := KeyPath(path, fields[0].key);
      (if Lower(fields[0].key) in PROHIBITED then [ProhibitedField(here)] else [])
      + ProhibitedFields(fields[0].value, here)
      + ProhibitedInFields(fields[1..], path)
  }

  function ProhibitedInItems(items: seq<Json>, path: string, i: nat): seq<Problem>
    decreases items, 0
  {
    if items == [] then []
    else ProhibitedFields(items[0], IndexPath(path, i)) + ProhibitedInItems(items[1..], path, i + 1)
  }

  /** All tokens of all strings, in document order. */
  function AllTokens(v: Json): Tokens
    decreases v, 0
  {
    match v
    case Obj(fields) => TokensOfFields(fields)
    case Arr(items) => TokensOfItems(items)
    case Str(tokens) => tokens
    case Atom(_) => []
  }

  function TokensOfFields(fields: seq<Field>): Tokens
    decreases fields, 0
  {
    if fields == [] then [] else AllTokens(fields[0].value) + TokensOfFields(fields[1..])
  }

  function TokensOfItems(items: seq<Json>): Tokens
    decreases items, 0
  {
    if items == [] then [] else AllTokens(items[0]) + TokensOfItems(items[1..])
  }

  function UnsafeV4(tokens: Tokens): seq<Problem> {
    if tokens == [] then []
    else (if tokens[0].V4? && !IsSafeIpv4(tokens[0].addr) then [UnsafeIpv4] else []) + UnsafeV4(tokens[1..])
  }

  function UnsafeMacs(tokens: Tokens): seq<Problem> {
    if tokens == [] then []
    else (if tokens[0].Mac? && !IsLocallyAdministered(tokens[0].name) then [UnsafeMac] else []) + UnsafeMacs(tokens[1..])
  }

  /** The name the audit reads back from a path: what follows the last dot, up
      to the first bracket. */
  function RecoveredName(path: string): string {
    Before(AfterLast(path, '.'), '[')
  }

  predicate Suspicious(p: Policy, name: string, value: string) {
    HardName(name) || (SoftName(name) && HighEntropy(p, value))
  }

  function SensitiveNames(p: Policy, redacted: set<string>, v: Json, path: string): seq<Problem>
    decreases v, 0
  {
    match v
    case Obj(fields) => SensitiveInFields(p, redacted, fields, path)
    case Arr(items) => SensitiveInItems(p, redacted, items, path, 0)
    case Str(tokens) =>
      var name := RecoveredName(path);
      if name !in redacted && name !in p.benign && Suspicious(p, name, Rendered(tokens)) then [SensitiveName(path, name)] else []
    case Atom(_) => []
  }

  function SensitiveInFields(p: Policy, redacted: set<string>, fields: seq<Field>, path: string): seq<Problem>
    decreases fields, 0
  {
    if fields == [] then []
    else
      SensitiveNames(p, redacted, fields[0].value, KeyPath(path, fields[0].key))
      + SensitiveInFields(p, redacted, fields[1..], path)
  }

  function SensitiveInItems(p: Policy, redacted: set<string>, items: seq<Json>, path: string, i: nat): seq<Problem>
    decreases items, 0
  {
    if items == [] then []
    else
      SensitiveNames(p, redacted, items[0], IndexPath(path, i))
      + SensitiveInItems(p, redacted, items[1..], path, i + 1)
  }

  function Audit(p: Policy, v: Json, redacted: set<string>): seq<Problem> {
    ProhibitedFields(v, "$") + UnsafeV4(AllTokens(v)) + UnsafeMacs(AllTokens(v)) + SensitiveNames(p, redacted, v, "$")
  }

  datatype Result =
    | Sanitized(value: Json, counts: Counts, redacted: set<string>)
    | RefusedInput(refusal: Refusal)
    | SelfCheckFailed(problem: Problem)

  function Run(p: Policy, v: Json): Result {
    match SanitizerBlindness.Capture(p, v)
    case Refused(why) => RefusedInput(why)
    case Ok(value, st) =>
      var problems := Audit(p, value, st.redacted);
      if problems == [] then Sanitized(value, st.counts, st.redacted) else SelfCheckFailed(problems[0])
  }

  /** The whole run is blind to real addresses whenever the document must be
      refused or has no leaking user-name value; and a capture that its own audit
      accepts is blind only if it has none. */
  lemma RunBlind(p: Policy, v: Json)
    requires SanitizerBlindness.AllPlain(v)
    ensures SanitizerBlindness.Forbidden(p, v, "") || !SanitizerBlindness.Leaks(v, "") ==> BlindRun(p, v)
    ensures Run(p, v).Sanitized? ==> (BlindRun(p, v) <==> !SanitizerBlindness.Leaks(v, ""))
  {
    SanitizerBlindness.BlindExactly(p, v);
    SanitizerBlindness.RefusedExactly(p, v, "", "$", Fresh());
    if SanitizerBlindness.Blind(p, v) {
      forall r: SanitizerBlindness.Renaming | SanitizerBlindness.Admissible(r)
        ensures Run(p, SanitizerBlindness.Rename(r, v)) == Run(p, v)
      {
        assert SanitizerBlindness.SameSight(SanitizerBlindness.Capture(p, v), SanitizerBlindness.Capture(p, SanitizerBlindness.Rename(r, v)));
      }
    } else if Run(p, v).Sanitized? {
      var r: SanitizerBlindness.Renaming :| SanitizerBlindness.Admissible(r) &&
        !SanitizerBlindness.SameSight(SanitizerBlindness.Capture(p, v), SanitizerBlindness.Capture(p, SanitizerBlindness.Rename(r, v)));
      assert Run(p, SanitizerBlindness.Rename(r, v)) != Run(p, v);
    }
  }

  ghost predicate BlindRun(p: Policy, v: Json) {
    forall r: SanitizerBlindness.Renaming :: SanitizerBlindness.Admissible(r) ==>
      Run(p, SanitizerBlindness.Rename(r, v)) == Run(p, v)
  }

  // --------------------------------------------------- the name read from a path

  /** Keys without the two characters that structure a path. */
  predicate CleanKeys(v: Json)
    decreases v, 0
  {
    match v
    case Obj(fields) => CleanFields(fields)
    case Arr(items) => CleanItems(items)
    case Str(_) => true
    case Atom(_) => true
  }

  predicate CleanFields(fields: seq<Field>)
    decreases fields, 0
  {
    fields == [] ||
    ('.' !in fields[0].key && '[' !in fields[0].key && CleanKeys(fields[0].value) && CleanFields(fields[1..]))
  }

  predicate CleanItems(items: seq<Json>)
    decreases items, 0
  {
    items == [] || (CleanKeys(items[0]) && CleanItems(items[1..]))
  }

  /** The audit's name for a value is the sanitizer's. Above every key the
      sanitizer uses the empty name and the audit reads "$". */
  predicate NamesAgree(path: string, name: string) {
    RecoveredName(path) == name || (RecoveredName(path) == "$" && name == "")
  }

  lemma KeyRecovered(path: string, key: string)
    requires '.' !in key && '[' !in key
    ensures RecoveredName(KeyPath(path, key)) == key
  {
    AfterLastAppend(path + ".", key, '.');
    BeforeAppend(key, "", '[');
    assert key + "" == key;
  }

  lemma IndexTransparent(path: string, i: nat)
    ensures RecoveredName(IndexPath(path, i)) == RecoveredName(path)
  {
    var index := "[" + Numeral(i, 10) + "]";
    assert '.' !in index by {
      forall j | 0 <= j < |index| ensures index[j] != '.' {
        if 1 <= j < |index| - 1 {
          DecimalDigits(i, j - 1);
        }
      }
    }
    AfterLastAppend(path, index, '.');
    BeforeAppend(AfterLast(path, '.'), index, '[');
  }

  // ----------------------------------------------------- what the clause can say

  /** The strings the audit's name clause can fire on: empty ones under a name
      that looks like a token or secret. */
  function EmptySensitive(p: Policy, v: Json, name: string, path: string): seq<Problem>
    decreases v, 0
  {
    match v
    case Obj(fields) => EmptyInFields(p, fields, path)
    case Arr(items) => EmptyInItems(p, items, name, path, 0)
    case Str(tokens) =>
      if Rendered(tokens) == "" && name !in p.benign && HardName(name) then [SensitiveName(path, name)] else []
    case Atom(_) => []
  }

  function EmptyInFields(p: Policy, fields: seq<Field>, path: string): seq<Problem>
    decreases fields, 0
  {
    if fields == [] then []
    else
      EmptySensitive(p, fields[0].value, fields[0].key, KeyPath(path, fields[0].key)) + EmptyInFields(p, fields[1..], path)
  }

  function EmptyInItems(p: Policy, items: seq<Json>, name: string, path: string, i: nat): seq<Problem>
    decreases items, 0
  {
    if items == [] then []
    else EmptySensitive(p, items[0], name, IndexPath(path, i)) + EmptyInItems(p, items[1..], name, path, i + 1)
  }

  /** Only names that may be captured are ever marked as redacted. */
  ghost predicate RedactedOk(p: Policy, redacted: set<string>) {
    forall name :: name in redacted ==> name in p.benign || !HardName(name)
  }

  /** And every placeholder handed out looks like an address. */
  ghost predicate PlaceholdersLike(st: State) {
    && (forall k :: k in st.v6.given ==> Spelling(st.v6.given[k]))
    && (forall k :: k in st.mac.given ==> Spelling(st.mac.given[k]))
  }

  ghost predicate StateOk(p: Policy, st: State) {
    RedactedOk(p, st.redacted) && PlaceholdersLike(st)
  }

  lemma HexSpelled(n: nat)
    ensures forall i :: 0 <= i < |Numeral(n, 16)| ==> Digit(Numeral(n, 16)[i]) || 'a' <= Numeral(n, 16)[i] <= 'f'
  {
    assert forall d :: 0 <= d < 16 ==> Digit(DIGITS[d]) || 'a' <= DIGITS[d] <= 'f';
    if n >= 16 {
      HexSpelled(n / 16);
    }
  }

  lemma NextV6Spelled(i: nat)
    ensures Spelling(NthIpv6(i))
  {
    HexSpelled(i + 1);
    assert "2001:db8::"[4] == ':' && NthIpv6(i)[4] == ':';
  }

  lemma HexByteSpelled(n: nat)
    requires n < 256
    ensures |HexByte(n)| == 2 && forall i :: 0 <= i < 2 ==> Digit(HexByte(n)[i]) || 'a' <= HexByte(n)[i] <= 'f'
  {
    assert forall d :: 0 <= d < 16 ==> Digit(DIGITS[d]) || 'a' <= DIGITS[d] <= 'f';
  }

  lemma NextMacSpelled(i: nat)
    ensures Spelling(NthMac(i))
  {
    HexByteSpelled((i + 1) / 256 % 256);
    HexByteSpelled((i + 1) % 256);
    assert NthMac(i)[2] == ':';
  }

  lemma StepSpelled(t: Token, st: State)
    requires WellFormedToken(t) && PlaceholdersLike(st)
    ensures WellFormedToken(StepV4(t, st.v4).token)
    ensures WellFormedToken(StepV6(t, st.v6).token) && PlaceholdersLike(st.(v6 := StepV6(t, st.v6).pool))
    ensures WellFormedToken(StepMac(t, st.mac).token) && PlaceholdersLike(st.(mac := StepMac(t, st.mac).pool))
  {
    NextV6Spelled(st.v6.used);
    NextMacSpelled(st.mac.used);
  }

  /** A pass leaves well-formed tokens, with an address where there was one. */
  predicate SameShape(a: Tokens, b: Tokens) {
    |a| == |b| && forall i :: 0 <= i < |a| ==> if a[i].Lit? then b[i] == a[i] else !b[i].Lit?
  }

  lemma {:induction false} PassV4Shaped(tokens: Tokens, st: State)
    requires WellFormed(tokens) && PlaceholdersLike(st)
    ensures var r := PassV4(tokens, st.v4); WellFormed(r.tokens) && SameShape(tokens, r.tokens)
  {
    if tokens != [] {
      StepSpelled(tokens[0], st);
      var first := StepV4(tokens[0], st.v4);
      PassV4Shaped(tokens[1..], st.(v4 := first.pool));
      assert PassV4(tokens, st.v4).tokens == [first.token] + PassV4(tokens[1..], first.pool).tokens;
    }
  }

  lemma {:induction false} PassV6Shaped(tokens: Tokens, st: State)
    requires WellFormed(tokens) && PlaceholdersLike(st)
    ensures var r := PassV6(tokens, st.v6);
      WellFormed(r.tokens) && SameShape(tokens, r.tokens) && PlaceholdersLike(st.(v6 := r.pool))
  {
    if tokens != [] {
      StepSpelled(tokens[0], st);
      var first := StepV6(tokens[0], st.v6);
      PassV6Shaped(tokens[1..], st.(v6 := first.pool));
      assert PassV6(tokens, st.v6).tokens == [first.token] + PassV6(tokens[1..], first.pool).tokens;
    }
  }

  lemma {:induction false} PassMacShaped(tokens: Tokens, st: State)
    requires WellFormed(tokens) && PlaceholdersLike(st)
    ensures var r := PassMac(tokens, st.mac);
      WellFormed(r.tokens) && SameShape(tokens, r.tokens) && PlaceholdersLike(st.(mac := r.pool))
  {
    if tokens != [] {
      StepSpelled(tokens[0], st);
      var first := StepMac(tokens[0], st.mac);
      PassMacShaped(tokens[1..], st.(mac := first.pool));
      assert PassMac(tokens, st.mac).tokens == [first.token] + PassMac(tokens[1..], first.pool).tokens;
    }
  }

  /** Same shape, same verdict on the text's entropy. */
  lemma SameEntropy(p: Policy, a: Tokens, b: Tokens)
    requires WellFormed(a) && WellFormed(b) && SameShape(a, b)
    ensures HighEntropy(p, Rendered(a)) <==> HighEntropy(p, Rendered(b))
  {
    if SomeAddress(a) {
      var i :| 0 <= i < |a| && !a[i].Lit?;
      assert !b[i].Lit?;
      AddressBreaks(a);
      AddressBreaks(b);
      BrokenNotNoisy(p, Rendered(a));
      BrokenNotNoisy(p, Rendered(b));
    } else {
      assert a == b;
    }
  }

  lemma ReplacedShaped(tokens: Tokens, st: State)
    requires WellFormed(tokens) && PlaceholdersLike(st)
    ensures var s := ReplaceAddresses(tokens, st);
      WellFormed(s.tokens) && SameShape(tokens, s.tokens) && PlaceholdersLike(s.state) && s.state.redacted == st.redacted
  {
    var four := PassV4(tokens, st.v4);
    var six := PassV6(four.tokens, st.v6);
    PassV4Shaped(tokens, st);
    PassV6Shaped(four.tokens, st);
    PassMacShaped(six.tokens, st);
  }

  /** A generic substitution leaves the verdict on the text's entropy, or marks
      the field. */
  lemma GenericMarksOrKeeps(p: Policy, tokens: Tokens, name: string, st: State)
    requires WellFormed(tokens) && PlaceholdersLike(st)
    ensures var s := SubstituteGeneric(tokens, name, st);
      && ((HighEntropy(p, Rendered(s.tokens)) <==> HighEntropy(p, Rendered(tokens))) || name in s.state.redacted)
      && st.redacted <= s.state.redacted <= st.redacted + {name} && PlaceholdersLike(s.state)
  {
    ReplacedShaped(tokens, st);
    SameEntropy(p, tokens, ReplaceAddresses(tokens, st).tokens);
  }

  lemma SubstituteMarksOrKeeps(p: Policy, tokens: Tokens, name: string, st: State)
    requires WellFormed(tokens) && PlaceholdersLike(st)
    ensures var s := Substitute(p, tokens, name, st);
      && ((HighEntropy(p, Rendered(s.tokens)) <==> HighEntropy(p, Rendered(tokens))) || name in s.state.redacted)
      && st.redacted <= s.state.redacted <= st.redacted + {name} && PlaceholdersLike(s.state)
  {
    GenericMarksOrKeeps(p, tokens, name, st);
    if Identifying(p, name) {
      match KindOf(name)
      case NetgateId =>
      case Serial =>
      case Username =>
      case OtherIdentifying =>
    }
  }

  lemma RefusesHardNames(p: Policy, text: string, name: string)
    requires RefusalOf(p, text, name).None?
    ensures name in p.benign || !Suspicious(p, name, text)
  {
  }

  lemma StringClause(p: Policy, tokens: Tokens, name: string, path: string, st: State)
    requires StateOk(p, st) && WellFormed(tokens) && SanitizeString(p, tokens, name, path, st).Ok?
    ensures var o := SanitizeString(p, tokens, name, path, st);
      && StateOk(p, o.state) && st.redacted <= o.state.redacted
      && (name in o.state.redacted || name in p.benign ||
          (Suspicious(p, name, Rendered(o.value)) <==> Rendered(tokens) == "" && HardName(name)))
  {
    if Rendered(tokens) != "" {
      RefusesHardNames(p, Rendered(tokens), name);
      SubstituteMarksOrKeeps(p, tokens, name, st);
    } else {
      assert !HighEntropy(p, "");
    }
  }

  /** All strings of a document are as they are split. */
  predicate AllWellFormed(v: Json)
    decreases v, 0
  {
    match v
    case Obj(fields) => FieldsWellFormed(fields)
    case Arr(items) => ItemsWellFormed(items)
    case Str(tokens) => WellFormed(tokens)
    case Atom(_) => true
  }

  predicate FieldsWellFormed(fields: seq<Field>)
    decreases fields, 0
  {
    fields == [] || (AllWellFormed(fields[0].value) && FieldsWellFormed(fields[1..]))
  }

  predicate ItemsWellFormed(items: seq<Json>)
    decreases items, 0
  {
    items == [] || (AllWellFormed(items[0]) && ItemsWellFormed(items[1..]))
  }

  lemma {:induction false} RedactedGrows(p: Policy, v: Json, name: string, path: string, st: State)
    requires StateOk(p, st) && AllWellFormed(v) && Sanitize(p, v, name, path, st).Ok?
    ensures var o := Sanitize(p, v, name, path, st); StateOk(p, o.state) && st.redacted <= o.state.redacted
    decreases v, 0
  {
    match v
    case Obj(fields) => RedactedGrowsFields(p, fields, path, st);
    case Arr(items) => RedactedGrowsItems(p, items, name, path, 0, st);
    case Str(tokens) => StringClause(p, tokens, name, path, st);
    case Atom(_) =>
  }

  lemma {:induction false} RedactedGrowsFields(p: Policy, fields: seq<Field>, path: string, st: State)
    requires StateOk(p, st) && FieldsWellFormed(fields) && SanitizeFields(p, fields, path, st).Ok?
    ensures var o := SanitizeFields(p, fields, path, st); StateOk(p, o.state) && st.redacted <= o.state.redacted
    decreases fields, 0
  {
    if fields != [] {
      var k, v := fields[0].key, fields[0].value;
      RedactedGrows(p, v, k, KeyPath(path, k), st);
      RedactedGrowsFields(p, fields[1..], path, Sanitize(p, v, k, KeyPath(path, k), st).state);
    }
  }

  lemma {:induction false} RedactedGrowsItems(p: Policy, items: seq<Json>, name: string, path: string, i: nat, st: State)
    requires StateOk(p, st) && ItemsWellFormed(items) && SanitizeItems(p, items, name, path, i, st).Ok?
    ensures var o := SanitizeItems(p, items, name, path, i, st); StateOk(p, o.state) && st.redacted <= o.state.redacted
    decreases items, 0
  {
    if items != [] {
      RedactedGrows(p, items[0], name, IndexPath(path, i), st);
      RedactedGrowsItems(p, items[1..], name, path, i + 1, Sanitize(p, items[0], name, IndexPath(path, i), st).state);
    }
  }

  lemma RootNotSuspicious(p: Policy, value: string)
    ensures !Suspicious(p, "$", value) && !HardName("")
  {
    assert forall i :: 0 <= i < |HARD_NAMES| ==> |HARD_NAMES[i]| >= 3;
    assert forall i :: 0 <= i < |SOFT_NAMES| ==> |SOFT_NAMES[i]| >= 3;
  }

  /** After a successful capture the audit's name clause reports exactly the
      empty strings under a token- or secret-like name that is not allow-listed:
      the two walks agree on everything else. */
  lemma {:induction false} NameClause(p: Policy, v: Json, name: string, path: string, st: State, redacted: set<string>)
    requires CleanKeys(v) && NamesAgree(path, name)
    requires StateOk(p, st) && AllWellFormed(v) && Sanitize(p, v, name, path, st).Ok?
    requires RedactedOk(p, redacted) && Sanitize(p, v, name, path, st).state.redacted <= redacted
    ensures SensitiveNames(p, redacted, Sanitize(p, v, name, path, st).value, path) == EmptySensitive(p, v, name, path)
    decreases v, 0
  {
    match v
    case Obj(fields) => FieldsClause(p, fields, path, st, redacted);
    case Arr(items) => ItemsClause(p, items, name, path, 0, st, redacted);
    case Str(tokens) =>
      StringClause(p, tokens, name, path, st);
      RootNotSuspicious(p, Rendered(SanitizeString(p, tokens, name, path, st).value));
    case Atom(_) =>
  }

  lemma {:induction false} FieldsClause(p: Policy, fields: seq<Field>, path: string, st: State, redacted: set<string>)
    requires CleanFields(fields) && FieldsWellFormed(fields) && StateOk(p, st) && SanitizeFields(p, fields, path, st).Ok?
    requires RedactedOk(p, redacted) && SanitizeFields(p, fields, path, st).state.redacted <= redacted
    ensures SensitiveInFields(p, redacted, SanitizeFields(p, fields, path, st).value, path) == EmptyInFields(p, fields, path)
    decreases fields, 0
  {
    if fields != [] {
      var k, v := fields[0].key, fields[0].value;
      var first := Sanitize(p, v, k, KeyPath(path, k), st);
      KeyRecovered(path, k);
      RedactedGrows(p, v, k, KeyPath(path, k), st);
      RedactedGrowsFields(p, fields[1..], path, first.state);
      NameClause(p, v, k, KeyPath(path, k), st, redacted);
      FieldsClause(p, fields[1..], path, first.state, redacted);
      assert SanitizeFields(p, fields, path, st).value[1..] == SanitizeFields(p, fields[1..], path, first.state).value;
    }
  }

  lemma {:induction false} ItemsClause(p: Policy, items: seq<Json>, name: string, path: string, i: nat, st: State, redacted: set<string>)
    requires CleanItems(items) && NamesAgree(path, name)
    requires StateOk(p, st) && ItemsWellFormed(items) && SanitizeItems(p, items, name, path, i, st).Ok?
    requires RedactedOk(p, redacted) && SanitizeItems(p, items, name, path, i, st).state.redacted <= redacted
    ensures SensitiveInItems(p, redacted, SanitizeItems(p, items, name, path, i, st).value, path, i) == EmptyInItems(p, items, name, path, i)
    decreases items, 0
  {
    if items != [] {
      var first := Sanitize(p, items[0], name, IndexPath(path, i), st);
      IndexTransparent(path, i);
      RedactedGrows(p, items[0], name, IndexPath(path, i), st);
      RedactedGrowsItems(p, items[1..], name, path, i + 1, first.state);
      NameClause(p, items[0], name, IndexPath(path, i), st, redacted);
      ItemsClause(p, items[1..], name, path, i + 1, first.state, redacted);
      assert SanitizeItems(p, items, name, path, i, st).value[1..] == SanitizeItems(p, items[1..], name, path, i + 1, first.state).value;
    }
  }

  /** The same for the whole run. */
  lemma AuditAgrees(p: Policy, v: Json)
    requires CleanKeys(v) && AllWellFormed(v) && SanitizerBlindness.Capture(p, v).Ok?
    ensures var o := SanitizerBlindness.Capture(p, v);
      SensitiveNames(p, o.state.redacted, o.value, "$") == EmptySensitive(p, v, "", "$")
  {
    assert RecoveredName("$") == "$";
    RedactedGrows(p, v, "", "$", Fresh());
    NameClause(p, v, "", "$", Fresh(), SanitizerBlindness.Capture(p, v).state.redacted);
  }

  // ------------------------------------------------------------------ a real leak

  const LEAKY_NAME: string := "created_by"

  function LeakyTokens(): Tokens {
    [Lit("root@"), V4(Ipv4(10, 0, 0, 1), None), Lit(" "), V6("fe80::5", None, false)]
  }

  function LeakyDocument(): Json {
    Obj([Field(LEAKY_NAME, Str(LeakyTokens()))])
  }

  lemma LeakyName()
    ensures Lower(LEAKY_NAME) == LEAKY_NAME && KindOf(LEAKY_NAME).Username? && !HardName(LEAKY_NAME)
    ensures LEAKY_NAME !in CREDENTIAL_FIELDS && LEAKY_NAME !in PROHIBITED
  {
    assert Lower(LEAKY_NAME) == LEAKY_NAME;
    MissingChar(LEAKY_NAME, HARD_NAMES[0], 1);
    MissingChar(LEAKY_NAME, HARD_NAMES[1], 0);
    MissingChar(LEAKY_NAME, HARD_NAMES[2], 0);
    MissingChar(LEAKY_NAME, HARD_NAMES[3], 0);
    MissingChar(LEAKY_NAME, HARD_NAMES[4], 0);
    MissingChar(LEAKY_NAME, HARD_NAMES[5], 0);
    MissingChar(LEAKY_NAME, HARD_NAMES[6], 1);
  }

  const LEAKY_TEXT: string := "root@10.0.0.1 fe80::5"

  lemma SmallNumerals()
    ensures Numeral(0, 10) == "0" && Numeral(1, 10) == "1" && Numeral(10, 10) == "10"
  {
    assert Numeral(10, 10) == Numeral(1, 10) + [DIGITS[0]];
  }

  lemma RenderedCons(t: Token, rest: Tokens, text: string)
    requires Rendered(rest) == text
    ensures Rendered([t] + rest) == TokenText(t) + text
  {
    assert ([t] + rest)[1..] == rest;
  }

  lemma LeakyAddress()
    ensures Ipv4Text(Ipv4(10, 0, 0, 1)) == "10.0.0.1"
  {
    SmallNumerals();
  }

  lemma LeakyTail()
    ensures var t := LeakyTokens(); Rendered([t[1]] + ([t[2]] + [t[3]])) == "10.0.0.1 fe80::5"
  {
    var t := LeakyTokens();
    LeakyAddress();
    RenderedCons(t[3], [], "");
    RenderedCons(t[2], [t[3]], "fe80::5");
    RenderedCons(t[1], [t[2]] + [t[3]], " fe80::5");
  }

  lemma LeakyRendered()
    ensures Rendered(LeakyTokens()) == LEAKY_TEXT
  {
    var t := LeakyTokens();
    LeakyTail();
    RenderedCons(t[0], [t[1]] + ([t[2]] + [t[3]]), "10.0.0.1 fe80::5");
    assert t == [t[0]] + ([t[1]] + ([t[2]] + [t[3]]));
  }

  lemma LeakyTextClean()
    ensures !ContainsAny(LEAKY_TEXT, PEM_MARKERS) && !LooksLikeCredentialPath(LEAKY_TEXT)
  {
    MissingChar(LEAKY_TEXT, PEM_MARKERS[0], 0);
    MissingChar(LEAKY_TEXT, PEM_MARKERS[1], 0);
    MissingChar(LEAKY_TEXT, PEM_MARKERS[2], 0);
    MissingChar(LEAKY_TEXT, PEM_MARKERS[3], 0);
  }

  lemma LeakyNotRefused(p: Policy)
    requires p.hardRefusal == {}
    ensures RefusalOf(p, LEAKY_TEXT, LEAKY_NAME).None?
  {
    LeakyName();
    LeakyTextClean();
    assert LEAKY_TEXT[7] == '.';
    BrokenNotNoisy(p, LEAKY_TEXT);
  }

  function LeakySubstituted(): Tokens {
    [Lit("admin@"), Lit(""), V4(Ipv4(198, 51, 100, 10), None), Lit(" "), V6("fe80::5", None, false)]
  }

  function LeakyHost(): Tokens {
    [Lit(""), V4(Ipv4(10, 0, 0, 1), None), Lit(" "), V6("fe80::5", None, false)]
  }

  lemma LeakyAt()
    ensures HasAt(LeakyTokens()) && AfterAt(LeakyTokens()) == LeakyHost()
  {
    var tokens := LeakyTokens();
    assert Before(tokens[0].text, '@') == "root" by {
      assert "root@"[1..] == "oot@" && "oot@"[1..] == "ot@" && "ot@"[1..] == "t@" && "t@"[1..] == "@";
    }
    assert "root@"[5..] == "";
    assert AfterAt(tokens) == [Lit("")] + tokens[1..];
  }

  lemma LeakyPass(pool: Pool<Ipv4, Ipv4>)
    requires pool == Pool(map[], 0)
    ensures var x := PassV4(LeakyHost(), pool); x.count == 1 && [Lit("admin@")] + x.tokens == LeakySubstituted()
  {
    var host, replaced := LeakyHost(), V4(Ipv4(198, 51, 100, 10), None);
    assert NthIpv4(0) == Ipv4(198, 51, 100, 10);
    var used := Allocate(pool, NthIpv4, Ipv4(10, 0, 0, 1));
    assert host[3..][1..] == [] && host[2..][1..] == host[3..] && host[1..][1..] == host[2..];
    assert PassV4([], used) == Pass([], used, 0);
    assert PassV4(host[3..], used) == Pass([host[3]], used, 0);
    assert PassV4(host[2..], used) == Pass([host[2], host[3]], used, 0);
    assert PassV4(host[1..], pool) == Pass([replaced, host[2], host[3]], used, 1);
  }

  lemma LeakyOutput(st: State)
    requires st.v4 == Pool(map[], 0)
    ensures SubstituteUsername(LeakyTokens(), st).tokens == LeakySubstituted()
  {
    LeakyAt();
    LeakyPass(st.v4);
  }

  /** The leak is not caught downstream: this capture passes its own audit, and
      its output still holds the real IPv6 address. */
  lemma LeakPassesAudit(p: Policy)
    requires p.hardRefusal == {}
    ensures Run(p, LeakyDocument()).Sanitized?
    ensures Run(p, LeakyDocument()).value == Obj([Field(LEAKY_NAME, Str(LeakySubstituted()))])
    ensures V6("fe80::5", None, false) in LeakySubstituted()
  {
    var st := LeakyString(p);
    var v, out := LeakyDocument().fields[0].value, Str(LeakySubstituted());
    OneField(p, LEAKY_NAME, v, "$", Fresh(), out, st);
    LeakyAudit(p, st.redacted);
    assert LeakySubstituted()[4] == V6("fe80::5", None, false);
  }

  lemma OneField(p: Policy, key: string, v: Json, path: string, st: State, out: Json, st': State)
    requires Sanitize(p, v, key, KeyPath(path, key), st) == Ok(out, st')
    ensures Sanitize(p, Obj([Field(key, v)]), "", path, st) == Ok(Obj([Field(key, out)]), st')
  {
    var fields := [Field(key, v)];
    assert SanitizeFields(p, fields[1..], path, st') == Ok([], st');
    assert fields[0].value == v && [Field(key, out)] + [] == [Field(key, out)];
    assert SanitizeFields(p, fields, path, st) == Ok([Field(key, out)], st');
  }

  lemma LeakyString(p: Policy) returns (st: State)
    requires p.hardRefusal == {}
    ensures SanitizeString(p, LeakyTokens(), LEAKY_NAME, KeyPath("$", LEAKY_NAME), Fresh()) == Ok(LeakySubstituted(), st)
    ensures LEAKY_NAME in st.redacted
  {
    LeakyName();
    LeakyRendered();
    LeakyNotRefused(p);
    SanitizerBlindness.UsernameIdentifies(p, LEAKY_NAME);
    var marked := Fresh().(redacted := Fresh().redacted + {LEAKY_NAME});
    LeakyOutput(marked);
    st := SubstituteUsername(LeakyTokens(), marked).state;
  }

  lemma SafeCons(t: Token, rest: Tokens)
    requires !t.Mac? && (t.V4? ==> IsSafeIpv4(t.addr)) && UnsafeV4(rest) == [] && UnsafeMacs(rest) == []
    ensures UnsafeV4([t] + rest) == [] && UnsafeMacs([t] + rest) == []
  {
    assert ([t] + rest)[1..] == rest;
  }

  lemma LeakyTokensSafe()
    ensures UnsafeV4(LeakySubstituted()) == [] && UnsafeMacs(LeakySubstituted()) == []
  {
    var t := LeakySubstituted();
    PlaceholdersAccepted(0);
    assert t[2] == V4(NthIpv4(0), None);
    SafeCons(t[4], []);
    SafeCons(t[3], [t[4]]);
    SafeCons(t[2], [t[3]] + [t[4]]);
    SafeCons(t[1], [t[2]] + ([t[3]] + [t[4]]));
    SafeCons(t[0], [t[1]] + ([t[2]] + ([t[3]] + [t[4]])));
    assert t == [t[0]] + ([t[1]] + ([t[2]] + ([t[3]] + [t[4]])));
  }

  lemma LeakyAudit(p: Policy, redacted: set<string>)
    requires LEAKY_NAME in redacted
    ensures Audit(p, Obj([Field(LEAKY_NAME, Str(LeakySubstituted()))]), redacted) == []
  {
    LeakyName();
    LeakyTokensSafe();
    assert '.' !in LEAKY_NAME && '[' !in LEAKY_NAME;
    RedactedFieldAudit(p, LEAKY_NAME, LeakySubstituted(), redacted);
  }

  /** A redacted field whose addresses are all safe is nothing to the audit. */
  lemma RedactedFieldAudit(p: Policy, key: string, tokens: Tokens, redacted: set<string>)
    requires '.' !in key && '[' !in key && key in redacted && Lower(key) !in PROHIBITED
    requires UnsafeV4(tokens) == [] && UnsafeMacs(tokens) == []
    ensures Audit(p, Obj([Field(key, Str(tokens))]), redacted) == []
  {
    KeyRecovered("$", key);
    RedactedSilent(p, tokens, KeyPath("$", key), redacted);
    OneFieldAudit(p, key, Str(tokens), redacted);
  }

  lemma RedactedSilent(p: Policy, tokens: Tokens, path: string, redacted: set<string>)
    requires RecoveredName(path) in redacted
    ensures SensitiveNames(p, redacted, Str(tokens), path) == []
  {
  }

  lemma OneFieldAudit(p: Policy, key: string, v: Json, redacted: set<string>)
    requires v.Str? && Lower(key) !in PROHIBITED
    requires UnsafeV4(v.tokens) == [] && UnsafeMacs(v.tokens) == []
    requires SensitiveNames(p, redacted, v, KeyPath("$", key)) == []
    ensures Audit(p, Obj([Field(key, v)]), redacted) == []
  {
    var fields := [Field(key, v)];
    assert ProhibitedInFields(fields[1..], "$") == [] && ProhibitedFields(v, KeyPath("$", key)) == [];
    assert ProhibitedFields(Obj(fields), "$") == [];
    assert TokensOfFields(fields[1..]) == [];
    assert AllTokens(v) == v.tokens && v.tokens + [] == v.tokens;
    assert TokensOfFields(fields) == v.tokens;
    assert SensitiveInFields(p, redacted, fields[1..], "$") == [];
    assert SensitiveInFields(p, redacted, fields, "$") == [];
  }
}
