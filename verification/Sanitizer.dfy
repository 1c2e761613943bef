/** The fixture sanitizer (scripts/lib/sanitizer.py): what it computes, on JSON
    whose strings have been split into address tokens and the text between. */
module Sanitizing {
  import opened Options
  import opened Text
  import opened Numerals
  import opened Pools
  import opened Allocators

  /** A maximal piece of a string value: text, or an address that passed
      validation. IPv6 and MAC addresses are identified by their spelling. */
  datatype Token =
    | Lit(text: string)
    | V4(addr: Ipv4, prefix: Option<string>)
    | V6(name: string, prefix: Option<string>, bracketed: bool)
    | Mac(name: string)

  type Tokens = seq<Token>

  datatype Field = Field(key: string, value: Json)

  datatype Json =
    | Obj(fields: seq<Field>)
    | Arr(items: seq<Json>)
    | Str(tokens: Tokens)
    | Atom(id: int)

  /** One endpoint's capture policy. `noisy` decides whether a long unbroken
      text reaches the entropy threshold. */
  datatype Policy = Policy(
    identifying: set<string>,
    hardRefusal: set<string>,
    benign: set<string>,
    noisy: string -> bool)

  datatype Counts = Counts(
    ipv4: nat, ipv6: nat, mac: nat, netgateId: nat, serial: nat, hostname: nat, username: nat, genericRedacted: nat)

  datatype State = State(
    v4: Pool<Ipv4, Ipv4>,
    v6: Pool<string, string>,
    mac: Pool<string, string>,
    counts: Counts,
    redacted: set<string>)

  datatype Category =
    | PolicyHardRefusalField
    | CredentialShapedFieldName
    | PemKeyMaterial
    | CredentialPathShapedValue
    | SensitiveFieldName
    | HighEntropySensitiveField

  datatype Refusal = Refusal(path: string, category: Category)

  datatype Outcome<+T> = Ok(value: T, state: State) | Refused(refusal: Refusal)

  const GLOBAL_IDENTIFYING: set<string> := {"netgate_id", "serial", "created_by", "updated_by", "username"}
  const HOSTNAME_FIELDS: set<string> := {"hostname", "fqdn", "host_name", "domain"}
  const CREDENTIAL_FIELDS: set<string> :=
    {"apikey", "api_key", "password", "passwd", "token", "secret", "psk", "private_key", "privatekey",
     "pre_shared_key", "preshared_key"}
  const HARD_NAMES: seq<string> := ["token", "secret", "password", "passwd", "psk", "privatekey", "apikey"]
  const SOFT_NAMES: seq<string> := ["key", "auth", "cred"]
  const PEM_MARKERS: seq<string> := ["PRIVATE KEY", "BEGIN RSA", "BEGIN OPENSSH", "BEGIN EC PRIVATE KEY"]

  const KEY_FILE_EXTENSIONS: seq<string> := ["key", "pem", "p12", "pfx"]

  function NoCounts(): Counts {
    Counts(0, 0, 0, 0, 0, 0, 0, 0)
  }

  function Fresh(): State {
    State(Pool(map[], 0), Pool(map[], 0), Pool(map[], 0), NoCounts(), {})
  }

  // ------------------------------------------------- tests on names and values

  function PrefixText(prefix: Option<string>): string {
    match prefix
    case None => ""
    case Some(length) => "/" + length
  }

  function Ipv4Text(a: Ipv4): string {
    Numeral(a.a, 10) + "." + Numeral(a.b, 10) + "." + Numeral(a.c, 10) + "." + Numeral(a.d, 10)
  }

  function TokenText(t: Token): string {
    match t
    case Lit(text) => text
    case V4(addr, prefix) => Ipv4Text(addr) + PrefixText(prefix)
    case V6(name, prefix, bracketed) => if bracketed then "[" + (name + PrefixText(prefix)) + "]" else name + PrefixText(prefix)
    case Mac(name) => name
  }

  /** The string that was split. */
  function Rendered(tokens: Tokens): string {
    if tokens == [] then "" else TokenText(tokens[0]) + Rendered(tokens[1..])
  }

  predicate ContainsAny(s: string, parts: seq<string>) {
    exists i :: 0 <= i < |parts| && Contains(s, parts[i])
  }

  predicate HardName(name: string) {
    ContainsAny(Lower(name), HARD_NAMES)
  }

  predicate SoftName(name: string) {
    ContainsAny(Lower(name), SOFT_NAMES)
  }

  predicate KeyFileExtension(s: string) {
    s in KEY_FILE_EXTENSIONS
  }

  predicate KeyFileExtensionAt(s: string, i: nat) {
    && i + 4 <= |s|
    && s[i] == '.'
    && KeyFileExtension(Lower(s[i + 1..i + 4]))
    && (i + 4 == |s| || !WordChar(s[i + 4]))
  }

  predicate NamesKeyFile(s: string) {
    exists i :: 0 <= i < |s| && KeyFileExtensionAt(s, i)
  }

  predicate LooksLikeCredentialPath(s: string) {
    NamesKeyFile(s) && ('/' in s || '\\' in s)
  }

  predicate UnbrokenChar(c: char) {
    Alphanumeric(c) || c in {'+', '/', '=', '_', '-'}
  }

  predicate Unbroken(s: string) {
    |s| >= 20 && forall i :: 0 <= i < |s| ==> UnbrokenChar(s[i])
  }

  /** The pattern's end anchor also matches before a final line feed. */
  function WithoutLineFeed(s: string): string {
    if s != [] && s[|s| - 1] == '\n' then s[..|s| - 1] else s
  }

  predicate HighEntropy(p: Policy, s: string) {
    |s| >= 20 && Unbroken(WithoutLineFeed(s)) && p.noisy(s)
  }

  /** The label's pattern, too, matches before a final line feed. */
  predicate HostnameLabel(text: string) {
    var part := WithoutLineFeed(text);
    && 1 <= |part| <= 63
    && Alphanumeric(part[0]) && Alphanumeric(part[|part| - 1])
    && forall i :: 0 <= i < |part| ==> Alphanumeric(part[i]) || part[i] == '-'
  }

  predicate AllDigits(part: string) {
    part != [] && forall i :: 0 <= i < |part| ==> Digit(part[i])
  }

  predicate StrictHostname(s: string) {
    var labels := SplitOn(s, '.');
    && s != [] && ' ' !in s && |s| <= 253
    && |labels| >= 2
    && !(forall i :: 0 <= i < |labels| ==> AllDigits(labels[i]))
    && forall i :: 0 <= i < |labels| ==> HostnameLabel(labels[i])
  }

  predicate OwnMac(name: string) {
    MAC_PLACEHOLDER_PREFIX <= name
  }

  // ------------------------------------------------------- substitution passes

  /** One match of the substitution's pattern, and a whole left-to-right pass. */
  datatype Step<K, P> = Step(token: Token, pool: Pool<K, P>, count: nat)
  datatype Pass<K, P> = Pass(tokens: Tokens, pool: Pool<K, P>, count: nat)

  function StepV4(t: Token, pool: Pool<Ipv4, Ipv4>): Step<Ipv4, Ipv4> {
    if t.V4? then
      var pool' := Allocate(pool, NthIpv4, t.addr);
      Step(t.(addr := pool'.given[t.addr]), pool', 1)
    else Step(t, pool, 0)
  }

  function PassV4(tokens: Tokens, pool: Pool<Ipv4, Ipv4>): (r: Pass<Ipv4, Ipv4>)
    ensures |r.tokens| == |tokens|
  {
    if tokens == [] then Pass([], pool, 0)
    else
      var first := StepV4(tokens[0], pool);
      var rest := PassV4(tokens[1..], first.pool);
      Pass([first.token] + rest.tokens, rest.pool, first.count + rest.count)
  }

  function StepV6(t: Token, pool: Pool<string, string>): Step<string, string> {
    if t.V6? then
      var pool' := Allocate(pool, NthIpv6, t.name);
      Step(t.(name := pool'.given[t.name]), pool', 1)
    else Step(t, pool, 0)
  }

  function PassV6(tokens: Tokens, pool: Pool<string, string>): (r: Pass<string, string>)
    ensures |r.tokens| == |tokens|
  {
    if tokens == [] then Pass([], pool, 0)
    else
      var first := StepV6(tokens[0], pool);
      var rest := PassV6(tokens[1..], first.pool);
      Pass([first.token] + rest.tokens, rest.pool, first.count + rest.count)
  }

  function StepMac(t: Token, pool: Pool<string, string>): Step<string, string> {
    if t.Mac? && !OwnMac(t.name) then
      var pool' := Allocate(pool, NthMac, t.name);
      Step(Mac(pool'.given[t.name]), pool', 1)
    else Step(t, pool, 0)
  }

  function PassMac(tokens: Tokens, pool: Pool<string, string>): (r: Pass<string, string>)
    ensures |r.tokens| == |tokens|
  {
    if tokens == [] then Pass([], pool, 0)
    else
      var first := StepMac(tokens[0], pool);
      var rest := PassMac(tokens[1..], first.pool);
      Pass([first.token] + rest.tokens, rest.pool, first.count + rest.count)
  }

  // -------------------------------------------------------------- string level

  /** A substituted string, the new state, and whether anything was changed. */
  datatype Substituted = Substituted(tokens: Tokens, state: State, changed: bool)

  function Counted(st: State, four: Pass<Ipv4, Ipv4>, six: Pass<string, string>, mac: Pass<string, string>): State {
    var counts := st.counts.(
      ipv4 := st.counts.ipv4 + four.count, ipv6 := st.counts.ipv6 + six.count, mac := st.counts.mac + mac.count);
    st.(v4 := four.pool, v6 := six.pool, mac := mac.pool, counts := counts)
  }

  /** The three passes in order, counted. */
  function ReplaceAddresses(tokens: Tokens, st: State): Substituted {
    var four := PassV4(tokens, st.v4);
    var six := PassV6(four.tokens, st.v6);
    var mac := PassMac(six.tokens, st.mac);
    Substituted(mac.tokens, Counted(st, four, six, mac), four.count + six.count + mac.count > 0)
  }

  function SubstituteGeneric(tokens: Tokens, name: string, st: State): Substituted {
    var s := ReplaceAddresses(tokens, st);
    if !s.changed && (Lower(name) in HOSTNAME_FIELDS || StrictHostname(Rendered(tokens))) then
      var counts := s.state.counts;
      Substituted(
        [Lit("host.example.invalid")],
        s.state.(counts := counts.(hostname := counts.hostname + 1), redacted := st.redacted + {name}),
        true)
    else s
  }

  predicate HasAt(tokens: Tokens) {
    tokens != [] && ((tokens[0].Lit? && '@' in tokens[0].text) || HasAt(tokens[1..]))
  }

  /** What follows the first '@'. */
  function AfterAt(tokens: Tokens): Tokens {
    if tokens == [] then []
    else if tokens[0].Lit? && '@' in tokens[0].text then
      [Lit(tokens[0].text[|Before(tokens[0].text, '@')| + 1..])] + tokens[1..]
    else AfterAt(tokens[1..])
  }

  /** How an identifying field is replaced, by its name. */
  datatype FieldKind = NetgateId | Serial | Username | OtherIdentifying

  function KindOf(name: string): FieldKind {
    var lname := Lower(name);
    if lname == "netgate_id" then NetgateId
    else if lname == "serial" then Serial
    else if lname in {"created_by", "updated_by", "username"} then Username
    else OtherIdentifying
  }

  /** A user name keeps its `who@host` shape when the host holds an IPv4 address. */
  function SubstituteUsername(tokens: Tokens, st: State): Substituted {
    var counted := st.(counts := st.counts.(username := st.counts.username + 1));
    if !HasAt(tokens) then Substituted(UsernameFallback(), counted, true)
    else
      var host := PassV4(AfterAt(tokens), st.v4);
      var counts := counted.counts;
      if host.count > 0 then
        Substituted(
          [Lit("admin@")] + host.tokens,
          counted.(v4 := host.pool, counts := counts.(ipv4 := counts.ipv4 + host.count)),
          true)
      else Substituted(UsernameFallback(), counted.(v4 := host.pool), true)
  }

  function SubstituteIdentifying(tokens: Tokens, name: string, st: State): Substituted {
    var c := st.counts;
    var marked := st.(redacted := st.redacted + {name});
    match KindOf(name)
    case NetgateId =>
      Substituted([Lit("ANONYMIZED0000000000")], marked.(counts := c.(netgateId := c.netgateId + 1)), true)
    case Serial =>
      Substituted([Lit("SYNTHETIC-SERIAL-0000")], marked.(counts := c.(serial := c.serial + 1)), true)
    case Username => SubstituteUsername(tokens, marked)
    case OtherIdentifying =>
      var s := SubstituteGeneric(tokens, name, st);
      var st' := s.state.(redacted := s.state.redacted + {name});
      if s.changed then Substituted(s.tokens, st', true)
      else
        Substituted(
          [Lit("REDACTED-" + name)],
          st'.(counts := st'.counts.(genericRedacted := st'.counts.genericRedacted + 1)),
          true)
  }

  function UsernameFallback(): Tokens {
    [Lit("admin@"), V4(Ipv4(198, 51, 100, 20), None)]
  }

  /** Why a non-empty string must not be captured at all. */
  function RefusalOf(p: Policy, text: string, name: string): Option<Category> {
    var lname := Lower(name);
    var benign := name in p.benign;
    if name in p.hardRefusal && !benign then Some(PolicyHardRefusalField)
    else if lname in CREDENTIAL_FIELDS && !benign then Some(CredentialShapedFieldName)
    else if ContainsAny(text, PEM_MARKERS) then Some(PemKeyMaterial)
    else if LooksLikeCredentialPath(text) then Some(CredentialPathShapedValue)
    else if !benign && HardName(name) then Some(SensitiveFieldName)
    else if !benign && SoftName(name) && HighEntropy(p, text) then Some(HighEntropySensitiveField)
    else None
  }

  predicate Identifying(p: Policy, name: string) {
    name in p.identifying || Lower(name) in GLOBAL_IDENTIFYING
  }

  function Substitute(p: Policy, tokens: Tokens, name: string, st: State): Substituted {
    if Identifying(p, name) then SubstituteIdentifying(tokens, name, st) else SubstituteGeneric(tokens, name, st)
  }

  function SanitizeString(p: Policy, tokens: Tokens, name: string, path: string, st: State): Outcome<Tokens> {
    if Rendered(tokens) == "" then Ok(tokens, st)
    else match RefusalOf(p, Rendered(tokens), name)
      case Some(category) => Refused(Refusal(path, category))
      case None =>
        var s := Substitute(p, tokens, name, st);
        Ok(s.tokens, s.state)
  }

  // ------------------------------------------------------------ document level

  function KeyPath(path: string, key: string): string {
    path + "." + key
  }

  function IndexPath(path: string, i: nat): string {
    path + ("[" + Numeral(i, 10) + "]")
  }

  function Sanitize(p: Policy, v: Json, name: string, path: string, st: State): Outcome<Json>
    decreases v, 0
  {
    match v
    case Obj(fields) =>
      (match SanitizeFields(p, fields, path, st)
       case Ok(fields', st') => Ok(Obj(fields'), st')
       case Refused(r) => Refused(r))
    case Arr(items) =>
      (match SanitizeItems(p, items, name, path, 0, st)
       case Ok(items', st') => Ok(Arr(items'), st')
       case Refused(r) => Refused(r))
    case Str(tokens) =>
      (match SanitizeString(p, tokens, name, path, st)
       case Ok(tokens', st') => Ok(Str(tokens'), st')
       case Refused(r) => Refused(r))
    case Atom(_) => Ok(v, st)
  }

  function SanitizeFields(p: Policy, fields: seq<Field>, path: string, st: State): (r: Outcome<seq<Field>>)
    decreases fields, 0
  {
    if fields == [] then Ok([], st)
    else
      match Sanitize(p, fields[0].value, fields[0].key, KeyPath(path, fields[0].key), st)
      case Refused(r) => Refused(r)
      case Ok(v', st') =>
        match SanitizeFields(p, fields[1..], path, st')
        case Refused(r) => Refused(r)
        case Ok(rest, st'') => Ok([Field(fields[0].key, v')] + rest, st'')
  }

  function SanitizeItems(p: Policy, items: seq<Json>, name: string, path: string, i: nat, st: State): (r: Outcome<seq<Json>>)
    decreases items, 0
  {
    if items == [] then Ok([], st)
    else
      match Sanitize(p, items[0], name, IndexPath(path, i), st)
      case Refused(r) => Refused(r)
      case Ok(v', st') =>
        match SanitizeItems(p, items[1..], name, path, i + 1, st')
        case Refused(r) => Refused(r)
        case Ok(rest, st'') => Ok([v'] + rest, st'')
  }
}
