/** What the sanitizer refuses and what its audit reports, string by string of
    the document (scripts/lib/sanitizer.py, scripts/lib/security_policy.py). */
module SanitizerReports {
  import opened Options
  import opened Text
  import opened Numerals
  import opened Allocators
  import opened Sanitizing
  import A = SanitizerAudit
  import SanitizerBlindness

  /** A string of a document, under the name and path it is sanitized with. */
  datatype Place = Place(tokens: Tokens, name: string, path: string)

  /** All strings, in the order of the walk. */
  function Places(v: Json, name: string, path: string): seq<Place>
    decreases v, 0
  {
    match v
    case Obj(fields) => PlacesInFields(fields, path)
    case Arr(items) => PlacesInItems(items, name, path, 0)
    case Str(tokens) => [Place(tokens, name, path)]
    case Atom(_) => []
  }

  function PlacesInFields(fields: seq<Field>, path: string): seq<Place>
    decreases fields, 0
  {
    if fields == [] then []
    else Places(fields[0].value, fields[0].key, path + "." + fields[0].key) + PlacesInFields(fields[1..], path)
  }

  function PlacesInItems(items: seq<Json>, name: string, path: string, i: nat): seq<Place>
    decreases items, 0
  {
    if items == [] then []
    else Places(items[0], name, path + ("[" + Numeral(i, 10) + "]")) + PlacesInItems(items[1..], name, path, i + 1)
  }

  // ----------------------------------------------------------------- refusals

  /** Some file name in `s` has a key file's extension, in any case, that no
      further word character follows. */
  predicate KeyFileNamed(s: string) {
    exists i :: 0 <= i <= |s| - 4 && ExtensionStands(s, i)
  }

  predicate ExtensionStands(s: string, i: nat)
    requires i + 4 <= |s|
  {
    && s[i] == '.'
    && Lower(s[i + 1..i + 4]) in {"key", "pem", "p12", "pfx"}
    && (i + 4 < |s| ==> !WordChar(s[i + 4]))
  }

  /** The policy does not exempt the name, which has one of these parts. */
  predicate NamePart(p: Policy, name: string, parts: set<string>) {
    name !in p.benign && exists part :: part in parts && Contains(Lower(name), part)
  }

  /** What each category means. */
  predicate Holds(p: Policy, text: string, name: string, c: Category) {
    match c
    case PolicyHardRefusalField => name in p.hardRefusal && name !in p.benign
    case CredentialShapedFieldName =>
      name !in p.benign && CredentialName(Lower(name))
    case PemKeyMaterial =>
      || Contains(text, "PRIVATE KEY") || Contains(text, "BEGIN RSA")
      || Contains(text, "BEGIN OPENSSH") || Contains(text, "BEGIN EC PRIVATE KEY")
    case CredentialPathShapedValue => KeyFileNamed(text) && ('/' in text || '\\' in text)
    case SensitiveFieldName =>
      NamePart(p, name, {"token", "secret", "password", "passwd", "psk", "privatekey", "apikey"})
    case HighEntropySensitiveField => NamePart(p, name, {"key", "auth", "cred"}) && LongAndNoisy(p, text)
  }

  predicate CredentialName(lname: string) {
    lname in {"apikey", "api_key", "password", "passwd", "token", "secret", "psk", "private_key", "privatekey",
              "pre_shared_key", "preshared_key"}
  }

  /** Twenty or more characters of a key's alphabet, but for one line feed at the
      end, that reach the entropy threshold. */
  predicate LongAndNoisy(p: Policy, s: string) {
    var n := if s != [] && s[|s| - 1] == '\n' then |s| - 1 else |s|;
    && n >= 20 && p.noisy(s)
    && forall i :: 0 <= i < n ==> Alphanumeric(s[i]) || s[i] in "+/=_-"
  }

  /** The order in which the categories are tested. */
  function Rank(c: Category): nat {
    match c
    case PolicyHardRefusalField => 0
    case CredentialShapedFieldName => 1
    case PemKeyMaterial => 2
    case CredentialPathShapedValue => 3
    case SensitiveFieldName => 4
    case HighEntropySensitiveField => 5
  }

  ghost predicate Acceptable(p: Policy, at: Place) {
    Rendered(at.tokens) == "" || forall c :: !Holds(p, Rendered(at.tokens), at.name, c)
  }

  /** The string must be refused, for the first reason there is. */
  ghost predicate RefusedAs(p: Policy, at: Place, why: Refusal) {
    var text := Rendered(at.tokens);
    && text != "" && why.path == at.path && Holds(p, text, at.name, why.category)
    && forall c :: Rank(c) < Rank(why.category) ==> !Holds(p, text, at.name, c)
  }

  lemma KeyFileMeans(s: string)
    ensures NamesKeyFile(s) <==> KeyFileNamed(s)
  {
    assert forall e :: KeyFileExtension(e) <==> e in {"key", "pem", "p12", "pfx"} by {
      assert KEY_FILE_EXTENSIONS == ["key", "pem", "p12", "pfx"];
    }
    assert forall i :: 0 <= i <= |s| - 4 ==> (KeyFileExtensionAt(s, i) <==> ExtensionStands(s, i));
    if NamesKeyFile(s) {
      var i :| 0 <= i < |s| && KeyFileExtensionAt(s, i);
      assert ExtensionStands(s, i);
    }
    if KeyFileNamed(s) {
      var i :| 0 <= i <= |s| - 4 && ExtensionStands(s, i);
      assert KeyFileExtensionAt(s, i);
    }
  }

  lemma PartsMean(s: string, list: seq<string>, parts: set<string>)
    requires forall x :: x in list <==> x in parts
    ensures ContainsAny(s, list) <==> exists part :: part in parts && Contains(s, part)
  {
    if ContainsAny(s, list) {
      var i :| 0 <= i < |list| && Contains(s, list[i]);
      assert list[i] in parts;
    }
    if part :| part in parts && Contains(s, part) {
      var i :| 0 <= i < |list| && list[i] == part;
    }
  }

  lemma HardNameMeans(p: Policy, name: string)
    ensures name !in p.benign && HardName(name) <==>
            NamePart(p, name, {"token", "secret", "password", "passwd", "psk", "privatekey", "apikey"})
  {
    PartsMean(Lower(name), HARD_NAMES, {"token", "secret", "password", "passwd", "psk", "privatekey", "apikey"});
  }

  lemma SoftNameMeans(p: Policy, name: string)
    ensures name !in p.benign && SoftName(name) <==> NamePart(p, name, {"key", "auth", "cred"})
  {
    PartsMean(Lower(name), SOFT_NAMES, {"key", "auth", "cred"});
  }

  lemma MarkersMean(p: Policy, text: string, name: string)
    ensures ContainsAny(text, PEM_MARKERS) <==> Holds(p, text, name, PemKeyMaterial)
  {
    assert PEM_MARKERS[0] == "PRIVATE KEY" && PEM_MARKERS[1] == "BEGIN RSA";
    assert PEM_MARKERS[2] == "BEGIN OPENSSH" && PEM_MARKERS[3] == "BEGIN EC PRIVATE KEY";
    assert |PEM_MARKERS| == 4;
  }

  lemma EntropyMeans(p: Policy, s: string)
    ensures HighEntropy(p, s) <==> LongAndNoisy(p, s)
  {
    var t := WithoutLineFeed(s);
    assert forall i :: 0 <= i < |t| ==> t[i] == s[i];
    assert forall c :: c in {'+', '/', '=', '_', '-'} <==> c in "+/=_-";
  }

  /** A string is refused exactly when a category holds, and for the first one. */
  lemma RefusalExactly(p: Policy, text: string, name: string)
    ensures var r := RefusalOf(p, text, name);
      && (r.None? <==> forall c :: !Holds(p, text, name, c))
      && (r.Some? ==> Holds(p, text, name, r.value) && forall c :: Rank(c) < Rank(r.value) ==> !Holds(p, text, name, c))
  {
    KeyFileMeans(text);
    HardNameMeans(p, name);
    SoftNameMeans(p, name);
    MarkersMean(p, text, name);
    EntropyMeans(p, text);
    assert Lower(name) in CREDENTIAL_FIELDS <==> CredentialName(Lower(name));
    assert RefusalOf(p, text, name).Some? ==> Holds(p, text, name, RefusalOf(p, text, name).value);
    if RefusalOf(p, text, name).None? {
      forall c: Category ensures !Holds(p, text, name, c) {
        match c
        case PolicyHardRefusalField =>
        case CredentialShapedFieldName =>
        case PemKeyMaterial =>
        case CredentialPathShapedValue =>
        case SensitiveFieldName =>
        case HighEntropySensitiveField =>
      }
    }
  }

  lemma StringRefused(p: Policy, at: Place, st: State)
    ensures match SanitizeString(p, at.tokens, at.name, at.path, st)
      case Ok(_, _) => Acceptable(p, at)
      case Refused(why) => RefusedAs(p, at, why)
  {
    RefusalExactly(p, Rendered(at.tokens), at.name);
  }

  /** The first string that must be refused decides. */
  ghost predicate Decided(p: Policy, places: seq<Place>, refused: Option<Refusal>) {
    match refused
    case None => forall i :: 0 <= i < |places| ==> Acceptable(p, places[i])
    case Some(why) =>
      exists i :: 0 <= i < |places| && RefusedAs(p, places[i], why) && forall j :: 0 <= j < i ==> Acceptable(p, places[j])
  }

  function RefusedIn<T>(o: Outcome<T>): Option<Refusal> {
    if o.Refused? then Some(o.refusal) else None
  }

  lemma DecidedBefore(p: Policy, a: seq<Place>, b: seq<Place>, why: Refusal)
    requires Decided(p, a, Some(why))
    ensures Decided(p, a + b, Some(why))
  {
    var i :| 0 <= i < |a| && RefusedAs(p, a[i], why) && forall j :: 0 <= j < i ==> Acceptable(p, a[j]);
    assert (a + b)[i] == a[i];
  }

  lemma DecidedAfter(p: Policy, a: seq<Place>, b: seq<Place>, refused: Option<Refusal>)
    requires Decided(p, a, None) && Decided(p, b, refused)
    ensures Decided(p, a + b, refused)
  {
    if refused.Some? {
      var i :| 0 <= i < |b| && RefusedAs(p, b[i], refused.value) && forall j :: 0 <= j < i ==> Acceptable(p, b[j]);
      assert (a + b)[|a| + i] == b[i];
    }
  }

  /** A document is captured exactly when each of its strings is acceptable; it
      is refused for the first that is not, by its path and first reason. */
  lemma {:induction false} FirstRefusal(p: Policy, v: Json, name: string, path: string, st: State)
    ensures Decided(p, Places(v, name, path), RefusedIn(Sanitize(p, v, name, path, st)))
    decreases v, 0
  {
    match v
    case Obj(fields) => FirstRefusalInFields(p, fields, path, st);
    case Arr(items) => FirstRefusalInItems(p, items, name, path, 0, st);
    case Str(tokens) =>
      var at := Place(tokens, name, path);
      StringRefused(p, at, st);
      assert [at][0] == at;
    case Atom(_) =>
  }

  lemma {:induction false} FirstRefusalInFields(p: Policy, fields: seq<Field>, path: string, st: State)
    ensures Decided(p, PlacesInFields(fields, path), RefusedIn(SanitizeFields(p, fields, path, st)))
    decreases fields, 0
  {
    if fields != [] {
      var v, k, here := fields[0].value, fields[0].key, KeyPath(path, fields[0].key);
      var first := Sanitize(p, v, k, here, st);
      FirstRefusal(p, v, k, here, st);
      if first.Refused? {
        DecidedBefore(p, Places(v, k, here), PlacesInFields(fields[1..], path), first.refusal);
      } else {
        FirstRefusalInFields(p, fields[1..], path, first.state);
        DecidedAfter(p, Places(v, k, here), PlacesInFields(fields[1..], path),
                     RefusedIn(SanitizeFields(p, fields[1..], path, first.state)));
      }
    }
  }

  lemma {:induction false} FirstRefusalInItems(p: Policy, items: seq<Json>, name: string, path: string, i: nat, st: State)
    ensures Decided(p, PlacesInItems(items, name, path, i), RefusedIn(SanitizeItems(p, items, name, path, i, st)))
    decreases items, 0
  {
    if items != [] {
      var here := IndexPath(path, i);
      var first := Sanitize(p, items[0], name, here, st);
      FirstRefusal(p, items[0], name, here, st);
      if first.Refused? {
        DecidedBefore(p, Places(items[0], name, here), PlacesInItems(items[1..], name, path, i + 1), first.refusal);
      } else {
        FirstRefusalInItems(p, items[1..], name, path, i + 1, first.state);
        DecidedAfter(p, Places(items[0], name, here), PlacesInItems(items[1..], name, path, i + 1),
                     RefusedIn(SanitizeItems(p, items[1..], name, path, i + 1, first.state)));
      }
    }
  }

  // ---------------------------------------------------------------- host names

  function Dotted(labels: seq<string>): string
    requires labels != []
  {
    if |labels| == 1 then labels[0] else labels[0] + ("." + Dotted(labels[1..]))
  }

  /** Letters, digits and inner hyphens, at most 63, but for one line feed at the
      end. */
  predicate DnsLabel(t: string) {
    var n := if t != [] && t[|t| - 1] == '\n' then |t| - 1 else |t|;
    && 1 <= n <= 63 && t[0] != '-' && t[n - 1] != '-'
    && forall i :: 0 <= i < n ==> Alphanumeric(t[i]) || t[i] == '-'
  }

  predicate HostLabels(labels: seq<string>) {
    && |labels| >= 2
    && (forall i :: 0 <= i < |labels| ==> DnsLabel(labels[i]))
    && exists i :: 0 <= i < |labels| && !AllDigits(labels[i])
  }

  lemma LabelMeans(t: string)
    ensures HostnameLabel(t) <==> DnsLabel(t)
    ensures DnsLabel(t) ==> '.' !in t && ' ' !in t
  {
    var part := WithoutLineFeed(t);
    assert forall i :: 0 <= i < |part| ==> part[i] == t[i];
  }

  lemma {:induction false} DottedSplit(s: string)
    ensures Dotted(SplitOn(s, '.')) == s
    ensures forall i :: 0 <= i < |SplitOn(s, '.')| ==> '.' !in SplitOn(s, '.')[i]
  {
    if s != [] {
      DottedSplit(s[1..]);
      var rest := SplitOn(s[1..], '.');
      if s[0] == '.' {
        assert ([[]] + rest)[1..] == rest;
        assert s == [] + ("." + s[1..]);
      } else {
        DottedHead([s[0]], rest);
        assert s == [s[0]] + s[1..];
      }
    }
  }

  lemma DottedHead(head: string, labels: seq<string>)
    requires labels != []
    ensures Dotted([head + labels[0]] + labels[1..]) == head + Dotted(labels)
  {
    var all := [head + labels[0]] + labels[1..];
    assert all[1..] == labels[1..];
  }

  lemma {:induction false} SplitLabel(part: string, rest: string)
    requires '.' !in part
    ensures SplitOn(part, '.') == [part]
    ensures SplitOn(part + ("." + rest), '.') == [part] + SplitOn(rest, '.')
  {
    if part == [] {
      assert ("." + rest)[1..] == rest;
      assert part + ("." + rest) == "." + rest;
    } else {
      SplitLabel(part[1..], rest);
      assert (part + ("." + rest))[1..] == part[1..] + ("." + rest);
      assert part == [part[0]] + part[1..];
    }
  }

  lemma {:induction false} SplitDotted(labels: seq<string>)
    requires labels != [] && forall i :: 0 <= i < |labels| ==> '.' !in labels[i]
    ensures SplitOn(Dotted(labels), '.') == labels
  {
    if |labels| == 1 {
      SplitLabel(labels[0], "");
    } else {
      SplitDotted(labels[1..]);
      SplitLabel(labels[0], Dotted(labels[1..]));
      assert labels == [labels[0]] + labels[1..];
    }
  }

  lemma {:induction false} NoSpace(labels: seq<string>)
    requires labels != [] && forall i :: 0 <= i < |labels| ==> ' ' !in labels[i]
    ensures ' ' !in Dotted(labels)
  {
    if |labels| > 1 {
      NoSpace(labels[1..]);
    }
  }

  lemma HostLabelsSplit(labels: seq<string>)
    requires HostLabels(labels)
    ensures SplitOn(Dotted(labels), '.') == labels && ' ' !in Dotted(labels)
  {
    forall i | 0 <= i < |labels| ensures '.' !in labels[i] && ' ' !in labels[i] {
      LabelMeans(labels[i]);
    }
    SplitDotted(labels);
    NoSpace(labels);
  }

  lemma StrictByLabels(s: string)
    ensures StrictHostname(s) <==> s != [] && ' ' !in s && |s| <= 253 && HostLabels(SplitOn(s, '.'))
  {
    var labels := SplitOn(s, '.');
    forall i | 0 <= i < |labels| ensures HostnameLabel(labels[i]) <==> DnsLabel(labels[i]) {
      LabelMeans(labels[i]);
    }
  }

  /** A strict host name is two or more labels joined by dots, not all numeric,
      of at most 253 characters together. */
  lemma StrictHostnameExactly(s: string)
    ensures StrictHostname(s) <==> |s| <= 253 && exists labels: seq<string> :: HostLabels(labels) && Dotted(labels) == s
  {
    StrictByLabels(s);
    DottedSplit(s);
    if labels: seq<string> :| HostLabels(labels) && Dotted(labels) == s {
      HostLabelsSplit(labels);
      assert s != [];
    }
  }

  // -------------------------------------------------------------------- audit

  /** A key of a document, and the path of its value. */
  datatype KeyAt = KeyAt(key: string, path: string)

  function Keys(v: Json, path: string): seq<KeyAt>
    decreases v, 0
  {
    match v
    case Obj(fields) => KeysInFields(fields, path)
    case Arr(items) => KeysInItems(items, path, 0)
    case Str(_) => []
    case Atom(_) => []
  }

  function KeysInFields(fields: seq<Field>, path: string): seq<KeyAt>
    decreases fields, 0
  {
    if fields == [] then []
    else
      var here := path + "." + fields[0].key;
      [KeyAt(fields[0].key, here)] + Keys(fields[0].value, here) + KeysInFields(fields[1..], path)
  }

  function KeysInItems(items: seq<Json>, path: string, i: nat): seq<KeyAt>
    decreases items, 0
  {
    if items == [] then []
    else Keys(items[0], path + ("[" + Numeral(i, 10) + "]")) + KeysInItems(items[1..], path, i + 1)
  }

  predicate ForbiddenKey(k: KeyAt) {
    Lower(k.key) in {"ipsecpsk", "password", "key"}
  }

  /** A string of the document holds the token. */
  predicate Holding(places: seq<Place>, t: Token) {
    exists i :: 0 <= i < |places| && t in places[i].tokens
  }

  /** The audit's own name for a string, its path's last part up to a bracket,
      is neither redacted nor exempt and looks sensitive. */
  predicate LooksSensitive(p: Policy, redacted: set<string>, at: Place, name: string) {
    && name == A.RecoveredName(at.path) && name !in redacted
    && (NamePart(p, name, {"token", "secret", "password", "passwd", "psk", "privatekey", "apikey"})
        || (NamePart(p, name, {"key", "auth", "cred"}) && LongAndNoisy(p, Rendered(at.tokens))))
  }

  /** What each problem means about the document. */
  ghost predicate Found(p: Policy, redacted: set<string>, v: Json, x: A.Problem) {
    match x
    case ProhibitedField(path) => exists k :: k in Keys(v, "$") && k.path == path && ForbiddenKey(k)
    case UnsafeIpv4 => exists t: Token :: Holding(Places(v, "", "$"), t) && t.V4? && !IsSafeIpv4(t.addr)
    case UnsafeMac => exists t: Token :: Holding(Places(v, "", "$"), t) && t.Mac? && !IsLocallyAdministered(t.name)
    case SensitiveName(path, name) =>
      exists at :: at in Places(v, "", "$") && at.path == path && LooksSensitive(p, redacted, at, name)
  }

  ghost predicate ProhibitedAmong(keys: seq<KeyAt>, x: A.Problem) {
    x.ProhibitedField? && exists k :: k in keys && k.path == x.path && ForbiddenKey(k)
  }

  lemma ProhibitedEither(a: seq<KeyAt>, b: seq<KeyAt>, x: A.Problem)
    ensures ProhibitedAmong(a + b, x) <==> ProhibitedAmong(a, x) || ProhibitedAmong(b, x)
  {
    assert forall k :: k in a + b <==> k in a || k in b;
  }

  lemma OneKey(k: KeyAt, x: A.Problem)
    ensures ProhibitedAmong([k], x) <==> Lower(k.key) in A.PROHIBITED && x == A.ProhibitedField(k.path)
  {
    assert k in [k];
  }

  lemma {:induction false} ProhibitedMeans(v: Json, path: string, x: A.Problem)
    ensures x in A.ProhibitedFields(v, path) <==> ProhibitedAmong(Keys(v, path), x)
    decreases v, 0
  {
    match v
    case Obj(fields) => ProhibitedInFieldsMeans(fields, path, x);
    case Arr(items) => ProhibitedInItemsMeans(items, path, 0, x);
    case Str(_) =>
    case Atom(_) =>
  }

  lemma {:induction false} ProhibitedInFieldsMeans(fields: seq<Field>, path: string, x: A.Problem)
    ensures x in A.ProhibitedInFields(fields, path) <==> ProhibitedAmong(KeysInFields(fields, path), x)
    decreases fields, 0
  {
    if fields != [] {
      var here := path + "." + fields[0].key;
      ProhibitedMeans(fields[0].value, here, x);
      ProhibitedInFieldsMeans(fields[1..], path, x);
      var k := KeyAt(fields[0].key, here);
      OneKey(k, x);
      ProhibitedEither([k], Keys(fields[0].value, here), x);
      ProhibitedEither([k] + Keys(fields[0].value, here), KeysInFields(fields[1..], path), x);
    }
  }

  lemma {:induction false} ProhibitedInItemsMeans(items: seq<Json>, path: string, i: nat, x: A.Problem)
    ensures x in A.ProhibitedInItems(items, path, i) <==> ProhibitedAmong(KeysInItems(items, path, i), x)
    decreases items, 0
  {
    if items != [] {
      var here := path + ("[" + Numeral(i, 10) + "]");
      ProhibitedMeans(items[0], here, x);
      ProhibitedInItemsMeans(items[1..], path, i + 1, x);
      ProhibitedEither(Keys(items[0], here), KeysInItems(items[1..], path, i + 1), x);
    }
  }

  lemma {:induction false} TokensMean(v: Json, name: string, path: string, t: Token)
    ensures t in A.AllTokens(v) <==> Holding(Places(v, name, path), t)
    decreases v, 0
  {
    match v
    case Obj(fields) => TokensInFieldsMean(fields, path, t);
    case Arr(items) => TokensInItemsMean(items, name, path, 0, t);
    case Str(tokens) => assert [Place(tokens, name, path)][0].tokens == tokens;
    case Atom(_) =>
  }

  lemma HoldingEither(a: seq<Place>, b: seq<Place>, t: Token)
    ensures Holding(a + b, t) <==> Holding(a, t) || Holding(b, t)
  {
    if Holding(a, t) {
      var i :| 0 <= i < |a| && t in a[i].tokens;
      assert (a + b)[i] == a[i];
    }
    if Holding(b, t) {
      var i :| 0 <= i < |b| && t in b[i].tokens;
      assert (a + b)[|a| + i] == b[i];
    }
  }

  lemma {:induction false} TokensInFieldsMean(fields: seq<Field>, path: string, t: Token)
    ensures t in A.TokensOfFields(fields) <==> Holding(PlacesInFields(fields, path), t)
    decreases fields, 0
  {
    if fields != [] {
      var v, k, here := fields[0].value, fields[0].key, path + "." + fields[0].key;
      TokensMean(v, k, here, t);
      TokensInFieldsMean(fields[1..], path, t);
      HoldingEither(Places(v, k, here), PlacesInFields(fields[1..], path), t);
    }
  }

  lemma {:induction false} TokensInItemsMean(items: seq<Json>, name: string, path: string, i: nat, t: Token)
    ensures t in A.TokensOfItems(items) <==> Holding(PlacesInItems(items, name, path, i), t)
    decreases items, 0
  {
    if items != [] {
      var here := path + ("[" + Numeral(i, 10) + "]");
      TokensMean(items[0], name, here, t);
      TokensInItemsMean(items[1..], name, path, i + 1, t);
      HoldingEither(Places(items[0], name, here), PlacesInItems(items[1..], name, path, i + 1), t);
    }
  }

  lemma {:induction false} UnsafeMeans(tokens: Tokens, x: A.Problem)
    ensures x in A.UnsafeV4(tokens) <==> x.UnsafeIpv4? && exists t: Token :: t in tokens && t.V4? && !IsSafeIpv4(t.addr)
    ensures x in A.UnsafeMacs(tokens) <==> x.UnsafeMac? && exists t: Token :: t in tokens && t.Mac? && !IsLocallyAdministered(t.name)
  {
    if tokens != [] {
      UnsafeMeans(tokens[1..], x);
      assert forall t :: t in tokens <==> t == tokens[0] || t in tokens[1..];
    }
  }

  lemma SuspiciousMeans(p: Policy, redacted: set<string>, at: Place, name: string)
    requires name == A.RecoveredName(at.path)
    ensures name !in redacted && name !in p.benign && A.Suspicious(p, name, Rendered(at.tokens)) <==>
            LooksSensitive(p, redacted, at, name)
  {
    HardNameMeans(p, name);
    SoftNameMeans(p, name);
    EntropyMeans(p, Rendered(at.tokens));
  }

  ghost predicate SensitiveIn(p: Policy, redacted: set<string>, places: seq<Place>, x: A.Problem) {
    x.SensitiveName? && exists at :: at in places && at.path == x.path && LooksSensitive(p, redacted, at, x.name)
  }

  lemma SensitiveEither(p: Policy, redacted: set<string>, a: seq<Place>, b: seq<Place>, x: A.Problem)
    ensures SensitiveIn(p, redacted, a + b, x) <==> SensitiveIn(p, redacted, a, x) || SensitiveIn(p, redacted, b, x)
  {
    assert forall at :: at in a + b <==> at in a || at in b;
  }

  lemma {:induction false} SensitiveMeans(p: Policy, redacted: set<string>, v: Json, name: string, path: string, x: A.Problem)
    ensures x in A.SensitiveNames(p, redacted, v, path) <==> SensitiveIn(p, redacted, Places(v, name, path), x)
    decreases v, 0
  {
    match v
    case Obj(fields) => SensitiveInFieldsMeans(p, redacted, fields, path, x);
    case Arr(items) => SensitiveInItemsMeans(p, redacted, items, name, path, 0, x);
    case Str(tokens) => SensitiveStringMeans(p, redacted, tokens, name, path, x);
    case Atom(_) =>
  }

  lemma SensitiveStringMeans(p: Policy, redacted: set<string>, tokens: Tokens, name: string, path: string, x: A.Problem)
    ensures x in A.SensitiveNames(p, redacted, Str(tokens), path) <==> SensitiveIn(p, redacted, [Place(tokens, name, path)], x)
  {
    var at := Place(tokens, name, path);
    SuspiciousMeans(p, redacted, at, A.RecoveredName(path));
    assert forall other :: other in [at] <==> other == at;
  }

  lemma {:induction false} SensitiveInFieldsMeans(p: Policy, redacted: set<string>, fields: seq<Field>, path: string, x: A.Problem)
    ensures x in A.SensitiveInFields(p, redacted, fields, path) <==> SensitiveIn(p, redacted, PlacesInFields(fields, path), x)
    decreases fields, 0
  {
    if fields != [] {
      var v, k, here := fields[0].value, fields[0].key, path + "." + fields[0].key;
      SensitiveMeans(p, redacted, v, k, here, x);
      SensitiveInFieldsMeans(p, redacted, fields[1..], path, x);
      SensitiveEither(p, redacted, Places(v, k, here), PlacesInFields(fields[1..], path), x);
    }
  }

  lemma {:induction false} SensitiveInItemsMeans(
      p: Policy, redacted: set<string>, items: seq<Json>, name: string, path: string, i: nat, x: A.Problem)
    ensures x in A.SensitiveInItems(p, redacted, items, path, i) <==>
            SensitiveIn(p, redacted, PlacesInItems(items, name, path, i), x)
    decreases items, 0
  {
    if items != [] {
      var here := path + ("[" + Numeral(i, 10) + "]");
      SensitiveMeans(p, redacted, items[0], name, here, x);
      SensitiveInItemsMeans(p, redacted, items[1..], name, path, i + 1, x);
      SensitiveEither(p, redacted, Places(items[0], name, here), PlacesInItems(items[1..], name, path, i + 1), x);
    }
  }

  /** The audit reports exactly the problems the document has. */
  lemma AuditExactly(p: Policy, v: Json, redacted: set<string>, x: A.Problem)
    ensures x in A.Audit(p, v, redacted) <==> Found(p, redacted, v, x)
  {
    ProhibitedMeans(v, "$", x);
    forall t ensures t in A.AllTokens(v) <==> Holding(Places(v, "", "$"), t) {
      TokensMean(v, "", "$", t);
    }
    UnsafeMeans(A.AllTokens(v), x);
    SensitiveMeans(p, redacted, v, "", "$", x);
  }

  /** A run hands over a captured document exactly when nothing in it is a
      problem. */
  lemma RunExactly(p: Policy, v: Json)
    ensures var c := SanitizerBlindness.Capture(p, v);
      match A.Run(p, v)
      case RefusedInput(why) => Decided(p, Places(v, "", "$"), Some(why))
      case Sanitized(out, counts, redacted) =>
        && Decided(p, Places(v, "", "$"), None) && c.Ok?
        && out == c.value && counts == c.state.counts && redacted == c.state.redacted
        && forall x :: !Found(p, redacted, out, x)
      case SelfCheckFailed(problem) =>
        Decided(p, Places(v, "", "$"), None) && c.Ok? && Found(p, c.state.redacted, c.value, problem)
  {
    FirstRefusal(p, v, "", "$", Fresh());
    var c := SanitizerBlindness.Capture(p, v);
    if c.Ok? {
      var problems := A.Audit(p, c.value, c.state.redacted);
      forall x ensures x in problems <==> Found(p, c.state.redacted, c.value, x) {
        AuditExactly(p, c.value, c.state.redacted, x);
      }
      assert problems != [] ==> problems[0] in problems;
    }
  }
}
