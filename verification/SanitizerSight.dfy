/** When the sanitizer's tests on a string's text (scripts/lib/sanitizer.py) can
    see the addresses in it: only where one touches the text beside it. */
module SanitizerSight {
  import opened Options
  import opened Text
  import opened Numerals
  import opened Allocators
  import opened Sanitizing

  // ------------------------------------------------------------- address texts

  predicate AddressChar(c: char) {
    Digit(c) || 'a' <= c <= 'f' || 'A' <= c <= 'F' || c == ':' || c == '.' || c == '/' || c == '[' || c == ']'
  }

  predicate AllAddress(s: string) {
    forall i :: 0 <= i < |s| ==> AddressChar(s[i])
  }

  predicate Separator(c: char) {
    c == ':' || c == '.'
  }

  predicate HasSeparator(s: string) {
    exists i :: 0 <= i < |s| && Separator(s[i])
  }

  /** What the text of every address looks like. */
  predicate AddressLike(s: string) {
    |s| >= 2 && AllAddress(s) && HasSeparator(s) && s[|s| - 1] != '.'
  }

  /** An IPv6 or MAC address is spelled in hexadecimal digits and colons. */
  predicate Spelling(s: string) {
    && |s| >= 2 && ':' in s
    && forall i :: 0 <= i < |s| ==> Digit(s[i]) || 'a' <= s[i] <= 'f' || 'A' <= s[i] <= 'F' || s[i] == ':'
  }

  predicate WellFormedToken(t: Token) {
    match t
    case Lit(_) => true
    case V4(_, prefix) => prefix.Some? ==> AllDigits(prefix.value)
    case V6(name, prefix, _) => Spelling(name) && (prefix.Some? ==> AllDigits(prefix.value))
    case Mac(name) => Spelling(name)
  }

  /** What splitting a string produces. */
  predicate WellFormed(tokens: Tokens) {
    forall i :: 0 <= i < |tokens| ==> WellFormedToken(tokens[i])
  }

  lemma NumeralAddress(n: nat)
    ensures AllAddress(Numeral(n, 10)) && forall c :: c in Numeral(n, 10) ==> Digit(c)
  {
    forall i | 0 <= i < |Numeral(n, 10)| ensures Digit(Numeral(n, 10)[i]) {
      DecimalDigits(n, i);
    }
  }

  lemma Ipv4Like(a: Ipv4)
    ensures AddressText(Ipv4Text(a), false)
  {
    NumeralAddress(a.a);
    NumeralAddress(a.b);
    NumeralAddress(a.c);
    NumeralAddress(a.d);
    var s, d := Ipv4Text(a), Numeral(a.d, 10);
    assert s[|Numeral(a.a, 10)|] == '.';
    assert s[|s| - 1] == d[|d| - 1] && d[|d| - 1] in d;
  }

  /** The text of an address, which has a slash exactly for a prefix length. */
  predicate AddressText(s: string, slash: bool) {
    AddressLike(s) && '\\' !in s && ('/' in s <==> slash)
  }

  lemma TokenLike(t: Token)
    requires WellFormedToken(t) && !t.Lit?
    ensures AddressText(TokenText(t), !t.Mac? && t.prefix.Some?)
  {
    match t
    case V4(addr, prefix) =>
      Ipv4Like(addr);
      Suffixed(Ipv4Text(addr), prefix);
    case V6(name, prefix, bracketed) =>
      SpellingLike(name);
      Suffixed(name, prefix);
      Bracketed(name + PrefixText(prefix), prefix.Some?);
    case Mac(name) =>
      SpellingLike(name);
  }

  lemma SpellingLike(name: string)
    requires Spelling(name)
    ensures AddressText(name, false)
  {
    var i :| 0 <= i < |name| && name[i] == ':';
    assert Separator(name[i]);
  }

  lemma Suffixed(address: string, prefix: Option<string>)
    requires AddressText(address, false) && (prefix.Some? ==> AllDigits(prefix.value))
    ensures AddressText(address + PrefixText(prefix), prefix.Some?)
  {
    var s := address + PrefixText(prefix);
    var i :| 0 <= i < |address| && Separator(address[i]);
    assert s[i] == address[i];
    if prefix.Some? {
      assert s[|address|] == '/';
      assert s[|s| - 1] == prefix.value[|prefix.value| - 1];
    }
  }

  lemma Bracketed(s: string, slash: bool)
    requires AddressText(s, slash)
    ensures AddressText("[" + s + "]", slash)
  {
    var i :| 0 <= i < |s| && Separator(s[i]);
    assert ("[" + s + "]")[i + 1] == s[i];
  }

  // ----------------------------------------------------------- blanked addresses

  /** The null address of the token's kind. */
  function Nulled(t: Token): (r: Token)
    ensures WellFormedToken(t) ==> WellFormedToken(r)
  {
    match t
    case Lit(_) => t
    case V4(_, _) => t.(addr := Ipv4(0, 0, 0, 0))
    case V6(_, _, _) => t.(name := "::")
    case Mac(_) => Mac("00:00:00:00:00:00")
  }

  /** A string with every address replaced by the null address of its kind. */
  function Blank(tokens: Tokens): string {
    if tokens == [] then "" else TokenText(Nulled(tokens[0])) + Blank(tokens[1..])
  }

  predicate SomeAddress(tokens: Tokens) {
    exists i :: 0 <= i < |tokens| && !tokens[i].Lit?
  }

  lemma {:induction false} NoAddressSame(tokens: Tokens)
    requires !SomeAddress(tokens)
    ensures Blank(tokens) == Rendered(tokens)
  {
    if tokens != [] {
      assert tokens[0].Lit?;
      assert forall i :: 0 <= i < |tokens[1..]| ==> tokens[1..][i] == tokens[i + 1];
      NoAddressSame(tokens[1..]);
    }
  }

  // ---------------------------------------------------------------- adjacency

  /** An address after `before` could complete `marker`. */
  predicate TailRisk(marker: string, before: string) {
    exists j :: 0 < j < |marker| && EndsWith(before, marker[..j]) && AllAddress(marker[j..])
  }

  predicate EndsWith(s: string, part: string) {
    |part| <= |s| && s[|s| - |part|..] == part
  }

  /** An address before `after`, and perhaps one inside it, could complete
      `marker`. */
  predicate HeadRisk(marker: string, after: string) {
    exists k, j :: 0 < k <= j <= |marker| && CompletedBy(marker, k, j, after)
  }

  predicate CompletedBy(marker: string, k: nat, j: nat, after: string)
    requires k <= j <= |marker|
  {
    AllAddress(marker[..k]) && AllAddress(marker[j..]) && marker[k..j] <= after
  }

  /** An address after `before` could complete or end a key file's extension. */
  predicate ExtensionRisk(before: string) {
    exists i, j :: 0 <= i < |KEY_FILE_EXTENSIONS| && 0 < j <= |KEY_FILE_EXTENSIONS[i]| && ExtensionStarted(before, KEY_FILE_EXTENSIONS[i], j)
  }

  predicate ExtensionStarted(before: string, e: string, j: nat)
    requires 0 < j <= |e|
  {
    |before| > j && before[|before| - j - 1] == '.' && Lower(before[|before| - j..]) == e[..j] && AllAddress(e[j..])
  }

  /** No address can complete `marker`; `before` is the text since the last one. */
  predicate MarkerApart(marker: string, before: string, tokens: Tokens)
    decreases tokens
  {
    tokens == [] ||
    if tokens[0].Lit? then MarkerApart(marker, before + tokens[0].text, tokens[1..])
    else
      !TailRisk(marker, before) && !HeadRisk(marker, Blank(tokens[1..])) && MarkerApart(marker, "", tokens[1..])
  }

  predicate ExtensionApart(before: string, tokens: Tokens)
    decreases tokens
  {
    tokens == [] ||
    if tokens[0].Lit? then ExtensionApart(before + tokens[0].text, tokens[1..])
    else !ExtensionRisk(before) && ExtensionApart("", tokens[1..])
  }

  /** No address touches text that it could make into key material or a key
      file's name, or keep from being one. */
  predicate Apart(tokens: Tokens) {
    (forall i :: 0 <= i < |PEM_MARKERS| ==> MarkerApart(PEM_MARKERS[i], "", tokens)) && ExtensionApart("", tokens)
  }

  // ------------------------------------------------------------------- markers

  predicate Marker(m: string) {
    (exists i :: 0 <= i < |m| && !AddressChar(m[i])) && (forall i :: 0 <= i < |m| ==> !Separator(m[i]))
  }

  lemma PemMarkers(i: nat)
    requires i < |PEM_MARKERS|
    ensures Marker(PEM_MARKERS[i])
  {
    assert !AddressChar("PRIVATE KEY"[0]) && !AddressChar("BEGIN RSA"[2]);
    assert !AddressChar("BEGIN OPENSSH"[2]) && !AddressChar("BEGIN EC PRIVATE KEY"[2]);
  }

  /** An address before `after` completes `marker`. */
  predicate StartRisk(marker: string, after: string) {
    exists k :: 0 < k < |marker| && AllAddress(marker[..k]) && marker[k..] <= after
  }

  lemma SliceAfter(x: string, address: string, y: string, i: nat, n: nat)
    requires |x| + |address| <= i && i + n <= |x| + |address| + |y|
    ensures var to := |x| + |address|; (x + (address + y))[i..i + n] == y[i - to..i - to + n]
  {
  }

  /** Across an address a marker occurs exactly when it does on one side. */
  lemma MarkerSplit(m: string, x: string, address: string, y: string)
    requires Marker(m) && AddressLike(address) && !TailRisk(m, x) && !StartRisk(m, y)
    ensures Contains(x + (address + y), m) <==> Contains(x, m) || Contains(y, m)
  {
    var s := x + (address + y);
    forall i | 0 <= i <= |s| && OccursAt(s, m, i) ensures Contains(x, m) || Contains(y, m) {
      MarkerSide(m, x, address, y, i);
    }
    if Contains(x, m) {
      var i :| 0 <= i <= |x| && OccursAt(x, m, i);
      assert s[i..i + |m|] == x[i..i + |m|];
      assert OccursAt(s, m, i);
    }
    if Contains(y, m) {
      var i :| 0 <= i <= |y| && OccursAt(y, m, i);
      var at := |x| + |address| + i;
      SliceAfter(x, address, y, at, |m|);
      assert OccursAt(s, m, at);
    }
  }

  lemma MarkerSide(m: string, x: string, address: string, y: string, i: nat)
    requires Marker(m) && AddressLike(address) && !TailRisk(m, x) && !StartRisk(m, y)
    requires OccursAt(x + (address + y), m, i)
    ensures Contains(x, m) || Contains(y, m)
  {
    var s := x + (address + y);
    var from, to := |x|, |x| + |address|;
    assert forall k :: 0 <= k < |m| ==> m[k] == s[i + k];
    assert forall k :: 0 <= k < |address| ==> s[from + k] == address[k];
    if i + |m| <= from {
      assert x[i..i + |m|] == m;
      assert OccursAt(x, m, i);
    } else if i >= to {
      SliceAfter(x, address, y, i, |m|);
      assert OccursAt(y, m, i - to);
    } else if i < from {
      EndsInside(m, x, address, y, i);
    } else {
      StartsInside(m, x, address, y, i);
    }
  }

  lemma EndsInside(m: string, x: string, address: string, y: string, i: nat)
    requires Marker(m) && AddressLike(address) && i < |x| < i + |m|
    requires OccursAt(x + (address + y), m, i)
    ensures TailRisk(m, x)
  {
    var s, j := x + (address + y), |x| - i;
    assert forall k :: 0 <= k < |m| ==> m[k] == s[i + k];
    var q :| 0 <= q < |address| && Separator(address[q]);
    assert s[|x| + q] == address[q];
    assert forall n :: 0 <= n < |address| && j + n < |m| ==> m[j + n] == address[n];
    assert i + |m| <= |x| + q;
    forall k | 0 <= k < |m[j..]| ensures AddressChar(m[j..][k]) {
      assert m[j + k] == s[|x| + k] == address[k];
    }
    assert x[|x| - j..] == m[..j];
    assert EndsWith(x, m[..j]);
  }

  lemma StartsInside(m: string, x: string, address: string, y: string, i: nat)
    requires Marker(m) && AddressLike(address) && |x| <= i < |x| + |address|
    requires OccursAt(x + (address + y), m, i)
    ensures StartRisk(m, y)
  {
    var s, k := x + (address + y), |x| + |address| - i;
    assert forall q :: 0 <= q < |m| ==> m[q] == s[i + q];
    var q :| 0 <= q < |m| && !AddressChar(m[q]);
    assert forall n :: 0 <= n < k && n < |m| ==> m[n] == address[i + n - |x|];
    assert q >= k;
    forall n | 0 <= n < |m[..k]| ensures AddressChar(m[..k][n]) {
      assert m[n] == s[i + n] == address[i + n - |x|];
    }
    assert m[k..] == y[..|m| - k];
  }

  /** Text that starts the rendered string and is the rest of a marker starts the
      blanked one too, up to where an address continues it. */
  lemma {:induction false} RenderedHead(m: string, k: nat, tokens: Tokens) returns (j: nat)
    requires Marker(m) && WellFormed(tokens) && k <= |m| && m[k..] <= Rendered(tokens)
    ensures k <= j <= |m| && AllAddress(m[j..]) && m[k..j] <= Blank(tokens)
    decreases tokens
  {
    if tokens == [] {
      j := k;
    } else {
      var text, rest := TokenText(tokens[0]), tokens[1..];
      if !tokens[0].Lit? {
        TokenLike(tokens[0]);
        HeadIsAddress(m, k, text, Rendered(rest));
        j := k;
      } else if |m| - k <= |text| {
        j := |m|;
        TextCovers(m, k, text, Rendered(rest), Blank(rest));
      } else {
        TextConsumed(m, k, text, Rendered(rest));
        j := RenderedHead(m, k + |text|, rest);
        TextRestored(m, k, j, text, Blank(rest));
      }
    }
  }

  lemma TextCovers(m: string, k: nat, text: string, rest: string, other: string)
    requires k <= |m| <= k + |text| && m[k..] <= text + rest
    ensures m[k..|m|] <= text + other
  {
    assert m[k..|m|] == m[k..];
    assert forall n :: 0 <= n < |m[k..]| ==> m[k..][n] == (text + rest)[n] == text[n] == (text + other)[n];
  }

  lemma TextRestored(m: string, k: nat, j: nat, text: string, other: string)
    requires k + |text| <= j <= |m| && m[k..k + |text|] == text && m[k + |text|..j] <= other
    ensures m[k..j] <= text + other
  {
    assert m[k..j] == text + m[k + |text|..j];
  }

  lemma TextConsumed(m: string, k: nat, text: string, rest: string)
    requires k + |text| <= |m| && m[k..] <= text + rest
    ensures m[k..k + |text|] == text && m[k + |text|..] <= rest
  {
    var all := text + rest;
    assert forall n :: 0 <= n < |m[k..]| ==> m[k + n] == all[n];
    assert m[k + |text|..] == rest[..|m| - k - |text|];
  }

  lemma HeadIsAddress(m: string, k: nat, address: string, rest: string)
    requires Marker(m) && AddressLike(address) && k <= |m| && m[k..] <= address + rest
    ensures AllAddress(m[k..])
  {
    var q :| 0 <= q < |address| && Separator(address[q]);
    assert forall n :: 0 <= n < |m[k..]| ==> m[k + n] == (address + rest)[n];
    assert forall n :: 0 <= n < |address| && k + n < |m| ==> m[k + n] == address[n];
    assert |m| - k <= q;
  }

  lemma NoStartRisk(m: string, tokens: Tokens)
    requires Marker(m) && WellFormed(tokens) && !HeadRisk(m, Blank(tokens))
    ensures !StartRisk(m, Rendered(tokens)) && !StartRisk(m, Blank(tokens))
  {
    forall k | 0 < k < |m| && AllAddress(m[..k]) ensures !(m[k..] <= Rendered(tokens)) && !(m[k..] <= Blank(tokens)) {
      if m[k..] <= Rendered(tokens) {
        var j := RenderedHead(m, k, tokens);
        assert CompletedBy(m, k, j, Blank(tokens));
      }
      if m[k..] <= Blank(tokens) {
        assert m[k..|m|] == m[k..];
        assert CompletedBy(m, k, |m|, Blank(tokens));
      }
    }
  }

  /** The text of the first literal token joins the text before it. */
  lemma LiteralJoins(before: string, tokens: Tokens)
    requires tokens != [] && tokens[0].Lit?
    ensures before + Rendered(tokens) == (before + tokens[0].text) + Rendered(tokens[1..])
    ensures before + Blank(tokens) == (before + tokens[0].text) + Blank(tokens[1..])
  {
    Joined(before, tokens[0].text, Rendered(tokens[1..]));
    Joined(before, tokens[0].text, Blank(tokens[1..]));
  }

  lemma Joined(a: string, b: string, c: string)
    ensures a + (b + c) == a + b + c
  {
  }

  lemma NothingBefore(s: string)
    ensures "" + s == s
  {
  }

  /** A marker occurs in the real text exactly when it does in the blanked one. */
  lemma {:induction false} MarkerBlank(m: string, before: string, tokens: Tokens)
    requires Marker(m) && WellFormed(tokens) && MarkerApart(m, before, tokens)
    ensures Contains(before + Rendered(tokens), m) <==> Contains(before + Blank(tokens), m)
    decreases tokens
  {
    if tokens != [] {
      var text, rest := TokenText(tokens[0]), tokens[1..];
      if tokens[0].Lit? {
        LiteralJoins(before, tokens);
        MarkerBlank(m, before + text, rest);
      } else {
        TokenLike(tokens[0]);
        TokenLike(Nulled(tokens[0]));
        NoStartRisk(m, rest);
        MarkerSplit(m, before, text, Rendered(rest));
        MarkerSplit(m, before, TokenText(Nulled(tokens[0])), Blank(rest));
        MarkerBlank(m, "", rest);
        NothingBefore(Rendered(rest));
        NothingBefore(Blank(rest));
      }
    }
  }

  lemma PemBlank(tokens: Tokens)
    requires WellFormed(tokens) && Apart(tokens)
    ensures ContainsAny(Rendered(tokens), PEM_MARKERS) <==> ContainsAny(Blank(tokens), PEM_MARKERS)
  {
    forall i | 0 <= i < |PEM_MARKERS|
      ensures Contains(Rendered(tokens), PEM_MARKERS[i]) <==> Contains(Blank(tokens), PEM_MARKERS[i])
    {
      PemMarkers(i);
      MarkerBlank(PEM_MARKERS[i], "", tokens);
      assert "" + Rendered(tokens) == Rendered(tokens) && "" + Blank(tokens) == Blank(tokens);
    }
  }

  // ------------------------------------------------------------ key file names

  /** A key file's name that ends before `x` does. */
  predicate NamesInside(x: string) {
    exists i :: 0 <= i < |x| - 4 && KeyFileExtensionAt(x, i)
  }

  lemma ExtensionShape(e: string)
    requires KeyFileExtension(e)
    ensures |e| == 3 && !AddressChar(e[0])
  {
  }

  lemma LowerAddress(s: string, i: nat)
    requires i < |s|
    ensures AddressChar(Lower(s)[i]) <==> AddressChar(s[i])
  {
  }

  /** Across an address a key file is named exactly when it is on one side. */
  lemma NameSplit(x: string, address: string, y: string)
    requires AddressLike(address) && !ExtensionRisk(x)
    ensures NamesKeyFile(x + (address + y)) <==> NamesInside(x) || NamesKeyFile(y)
  {
    var s := x + (address + y);
    forall i | 0 <= i < |s| && KeyFileExtensionAt(s, i) ensures NamesInside(x) || NamesKeyFile(y) {
      NameSide(x, address, y, i);
    }
    if NamesInside(x) {
      var i :| 0 <= i < |x| - 4 && KeyFileExtensionAt(x, i);
      assert s[i + 1..i + 4] == x[i + 1..i + 4];
      assert KeyFileExtensionAt(s, i);
    }
    if NamesKeyFile(y) {
      NameAfter(x, address, y);
    }
  }

  lemma NameAfter(x: string, address: string, y: string)
    requires NamesKeyFile(y)
    ensures NamesKeyFile(x + (address + y))
  {
    var s, to := x + (address + y), |x| + |address|;
    var i :| 0 <= i < |y| && KeyFileExtensionAt(y, i);
    SliceAfter(x, address, y, to + i + 1, 3);
    assert s[to + i] == y[i] && (to + i + 4 < |s| ==> s[to + i + 4] == y[i + 4]);
    assert KeyFileExtensionAt(s, to + i);
  }

  lemma NameSide(x: string, address: string, y: string, i: nat)
    requires AddressLike(address) && !ExtensionRisk(x)
    requires i < |x + (address + y)| && KeyFileExtensionAt(x + (address + y), i)
    ensures NamesInside(x) || NamesKeyFile(y)
  {
    var s, from, to := x + (address + y), |x|, |x| + |address|;
    var e := Lower(s[i + 1..i + 4]);
    ExtensionShape(e);
    assert forall k :: 0 <= k < |address| ==> s[from + k] == address[k];
    if i + 4 < from {
      assert x[i + 1..i + 4] == s[i + 1..i + 4];
      assert KeyFileExtensionAt(x, i);
    } else if i >= to {
      SliceAfter(x, address, y, i + 1, 3);
      assert s[i] == y[i - to] && (i + 4 < |s| ==> s[i + 4] == y[i - to + 4]);
      assert KeyFileExtensionAt(y, i - to);
    } else {
      NameStartsBefore(x, address, y, i);
      NameBroken(x, address, y, i);
    }
  }

  lemma NameStartsBefore(x: string, address: string, y: string, i: nat)
    requires AddressLike(address) && i < |x| + |address|
    requires KeyFileExtensionAt(x + (address + y), i)
    ensures i + 1 < |x|
  {
    var s := x + (address + y);
    ExtensionShape(Lower(s[i + 1..i + 4]));
    LowerAddress(s[i + 1..i + 4], 0);
    assert !AddressChar(s[i + 1]);
    assert s[|x| + |address| - 1] == address[|address| - 1] != '.';
    forall n | |x| <= n < |x| + |address| ensures AddressChar(s[n]) {
      assert s[n] == address[n - |x|];
    }
  }

  lemma NameBroken(x: string, address: string, y: string, i: nat)
    requires AddressLike(address) && i + 1 < |x| <= i + 4
    requires i < |x + (address + y)| && KeyFileExtensionAt(x + (address + y), i)
    ensures ExtensionRisk(x)
  {
    var s, j := x + (address + y), |x| - i - 1;
    var e := Lower(s[i + 1..i + 4]);
    ExtensionShape(e);
    assert forall k :: 0 <= k < |address| ==> s[|x| + k] == address[k];
    forall k | 0 <= k < |e[j..]| ensures AddressChar(e[j..][k]) {
      LowerAddress(s[i + 1..i + 4], j + k);
      assert s[i + 1..i + 4][j + k] == s[|x| + k] == address[k];
    }
    assert Lower(x[|x| - j..]) == e[..j];
    var n :| 0 <= n < |KEY_FILE_EXTENSIONS| && KEY_FILE_EXTENSIONS[n] == e;
    assert ExtensionStarted(x, KEY_FILE_EXTENSIONS[n], j);
  }

  lemma {:induction false} NameBlank(before: string, tokens: Tokens)
    requires WellFormed(tokens) && ExtensionApart(before, tokens)
    ensures NamesKeyFile(before + Rendered(tokens)) <==> NamesKeyFile(before + Blank(tokens))
    decreases tokens
  {
    if tokens != [] {
      var text, rest := TokenText(tokens[0]), tokens[1..];
      if tokens[0].Lit? {
        LiteralJoins(before, tokens);
        NameBlank(before + text, rest);
      } else {
        TokenLike(tokens[0]);
        TokenLike(Nulled(tokens[0]));
        NameSplit(before, text, Rendered(rest));
        NameSplit(before, TokenText(Nulled(tokens[0])), Blank(rest));
        NameBlank("", rest);
        NothingBefore(Rendered(rest));
        NothingBefore(Blank(rest));
      }
    }
  }

  lemma {:induction false} SlashBlank(tokens: Tokens)
    requires WellFormed(tokens)
    ensures '/' in Rendered(tokens) <==> '/' in Blank(tokens)
    ensures '\\' in Rendered(tokens) <==> '\\' in Blank(tokens)
  {
    if tokens != [] {
      SlashBlank(tokens[1..]);
      if !tokens[0].Lit? {
        TokenLike(tokens[0]);
        TokenLike(Nulled(tokens[0]));
      }
    }
  }

  // --------------------------------------------------------------- all the tests

  /** An address breaks up the text it is in. */
  lemma {:induction false} AddressBreaks(tokens: Tokens)
    requires WellFormed(tokens) && SomeAddress(tokens)
    ensures ':' in Rendered(tokens) || '.' in Rendered(tokens)
    ensures ':' in Blank(tokens) || '.' in Blank(tokens)
  {
    if !tokens[0].Lit? {
      TokenLike(tokens[0]);
      TokenLike(Nulled(tokens[0]));
      SeparatorIn(TokenText(tokens[0]));
      SeparatorIn(TokenText(Nulled(tokens[0])));
    } else {
      var i :| 0 <= i < |tokens| && !tokens[i].Lit?;
      assert !tokens[1..][i - 1].Lit?;
      AddressBreaks(tokens[1..]);
    }
  }

  lemma SeparatorIn(s: string)
    requires HasSeparator(s)
    ensures ':' in s || '.' in s
  {
  }

  lemma BrokenNotNoisy(p: Policy, s: string)
    requires ':' in s || '.' in s
    ensures !HighEntropy(p, s)
  {
    var i :| 0 <= i < |s| && (s[i] == ':' || s[i] == '.');
    var core := WithoutLineFeed(s);
    assert i < |core| && !UnbrokenChar(core[i]);
    assert !Unbroken(core);
  }

  lemma EntropyBlank(p: Policy, tokens: Tokens)
    requires WellFormed(tokens)
    ensures HighEntropy(p, Rendered(tokens)) <==> HighEntropy(p, Blank(tokens))
  {
    if SomeAddress(tokens) {
      AddressBreaks(tokens);
      BrokenNotNoisy(p, Rendered(tokens));
      BrokenNotNoisy(p, Blank(tokens));
    } else {
      NoAddressSame(tokens);
    }
  }

  lemma {:induction false} EmptyBlank(tokens: Tokens)
    requires WellFormed(tokens)
    ensures Rendered(tokens) == "" <==> Blank(tokens) == ""
  {
    if tokens != [] {
      EmptyBlank(tokens[1..]);
      if !tokens[0].Lit? {
        TokenLike(tokens[0]);
        TokenLike(Nulled(tokens[0]));
      }
    }
  }

  /** Where every address stands apart, the refusals do not depend on which
      addresses they are. */
  lemma RefusalBlank(p: Policy, tokens: Tokens, name: string)
    requires WellFormed(tokens) && Apart(tokens)
    ensures RefusalOf(p, Rendered(tokens), name) == RefusalOf(p, Blank(tokens), name)
    ensures Rendered(tokens) == "" <==> Blank(tokens) == ""
  {
    PemBlank(tokens);
    NameBlank("", tokens);
    assert "" + Rendered(tokens) == Rendered(tokens) && "" + Blank(tokens) == Blank(tokens);
    SlashBlank(tokens);
    EntropyBlank(p, tokens);
    EmptyBlank(tokens);
  }
}
