/** Character-level tests shared by the string-handling modules. */
module Text {

  function LowerChar(c: char): char {
    if 'A' <= c <= 'Z' then c - 'A' + 'a' else c
  }

  /** ASCII lower case. */
  function Lower(s: string): (r: string)
    ensures |r| == |s|
  {
    seq(|s|, i requires 0 <= i < |s| => LowerChar(s[i]))
  }

  predicate Digit(c: char) {
    '0' <= c <= '9'
  }

  predicate Alphanumeric(c: char) {
    Digit(c) || 'a' <= c <= 'z' || 'A' <= c <= 'Z'
  }

  predicate WordChar(c: char) {
    Alphanumeric(c) || c == '_'
  }

  predicate AsciiSpace(c: char) {
    c == ' ' || c == '\t' || c == '\n' || c == '\r' || c == '\U{b}' || c == '\U{c}'
  }

  /** What Python strips and `\s` matches, as far as ASCII goes. */
  predicate Space(c: char) {
    AsciiSpace(c) || '\U{1c}' <= c <= '\U{1f}'
  }

  predicate TokenChar(c: char) {
    Alphanumeric(c) || c == '_' || c == '.' || c == ':' || c == '-'
  }

  /** A safe identifier token. */
  predicate SafeToken(s: string) {
    1 <= |s| <= 128 && Alphanumeric(s[0]) && forall i :: 0 <= i < |s| ==> TokenChar(s[i])
  }

  /** A SHA-256 digest in lower-case hexadecimal. */
  predicate HexDigest(s: string) {
    |s| == 64 && forall i :: 0 <= i < |s| ==> Digit(s[i]) || 'a' <= s[i] <= 'f'
  }

  /** `part` occurs in `s` at position `i`. */
  predicate OccursAt(s: string, part: string, i: nat) {
    i + |part| <= |s| && s[i..i + |part|] == part
  }

  predicate Contains(s: string, part: string) {
    exists i :: 0 <= i <= |s| && OccursAt(s, part, i)
  }

  lemma MissingChar(s: string, part: string, i: nat)
    requires i < |part|
    ensures Contains(s, part) ==> part[i] in s
  {
    if k :| 0 <= k <= |s| && OccursAt(s, part, k) {
      assert s[k + i] == s[k..k + |part|][i];
    }
  }

  function SplitOn(s: string, separator: char): (parts: seq<string>)
    ensures |parts| >= 1
  {
    if s == [] then [[]]
    else
      var rest := SplitOn(s[1..], separator);
      if s[0] == separator then [[]] + rest else [[s[0]] + rest[0]] + rest[1..]
  }

  /** Everything before the first occurrence of `c`, or all of `s`. */
  function Before(s: string, c: char): (r: string)
    ensures c !in r && r <= s
    ensures r == s || (|r| < |s| && s[|r|] == c)
  {
    if s == [] || s[0] == c then [] else [s[0]] + Before(s[1..], c)
  }

  /** Everything after the last occurrence of `c`, or all of `s`. */
  function AfterLast(s: string, c: char): (r: string)
    ensures c !in r
    decreases |s|
  {
    if s == [] then []
    else if s[|s| - 1] == c then []
    else AfterLast(s[..|s| - 1], c) + [s[|s| - 1]]
  }

  lemma {:induction false} AfterLastAppend(s: string, t: string, c: char)
    requires c !in t
    ensures AfterLast(s + t, c) == AfterLast(s, c) + t
  {
    if t == [] {
      assert s + t == s;
    } else {
      var init, last := t[..|t| - 1], t[|t| - 1];
      assert (s + t)[..|s + t| - 1] == s + init;
      assert (s + t)[|s + t| - 1] == last;
      AfterLastAppend(s, init, c);
      assert t == init + [last];
    }
  }

  lemma {:induction false} BeforeAppend(s: string, t: string, c: char)
    ensures c in s ==> Before(s + t, c) == Before(s, c)
    ensures c !in s ==> Before(s + t, c) == s + Before(t, c)
  {
    if s == [] {
      assert s + t == t;
    } else {
      assert (s + t)[1..] == s[1..] + t;
      BeforeAppend(s[1..], t, c);
    }
  }
}
