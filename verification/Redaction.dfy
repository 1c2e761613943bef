/** The log filter that masks registered secrets
    (src/pfsense_mcp/logging_setup.py). */
module Redaction {
  import opened Text

  const MARK: string := "[REDACTED]"

  /** Python's `replace`: leftmost occurrences, not overlapping. */
  function ReplaceAll(s: string, part: string, mark: string): string
    requires part != []
    decreases |s|
  {
    if s == [] then []
    else if OccursAt(s, part, 0) then mark + ReplaceAll(s[|part|..], part, mark)
    else [s[0]] + ReplaceAll(s[1..], part, mark)
  }

  /** Masks one secret after another. */
  function Redact(message: string, secrets: seq<string>): string
    requires [] !in secrets
    decreases |secrets|
  {
    if secrets == [] then message
    else Redact(ReplaceAll(message, secrets[0], MARK), secrets[1..])
  }

  // -------------------------------------------------------- the program's form

  /** A record's arguments are formatted into its message when there are any. */
  class LogRecord {
    var msg: string
    var args: seq<string>
    const format: (string, seq<string>) -> string

    constructor (msg: string, args: seq<string>, format: (string, seq<string>) -> string)
      ensures this.msg == msg && this.args == args && this.format == format
    {
      this.msg, this.args, this.format := msg, args, format;
    }

    function Message(): string
      reads this
    {
      if args == [] then msg else format(msg, args)
    }
  }

  class SecretRedactionFilter {
    var secrets: seq<string>

    ghost predicate Valid()
      reads this
    {
      [] !in secrets
    }

    constructor ()
      ensures Valid() && secrets == []
    {
      secrets := [];
    }

    method RegisterSecret(value: string)
      requires Valid()
      modifies this
      ensures Valid()
      ensures secrets == if value == [] then old(secrets) else old(secrets) + [value]
    {
      if value != [] {
        secrets := secrets + [value];
      }
    }

    /** Formats the record, masks every secret, and drops the arguments so that
        nothing is formatted again. */
    method Filter(record: LogRecord) returns (pass: bool)
      requires Valid()
      modifies record
      ensures pass && record.args == []
      ensures var message := if old(record.args) == [] then old(record.msg) else record.format(old(record.msg), old(record.args));
        record.Message() == record.msg == Redact(message, secrets)
    {
      var message := record.Message();
      ghost var formatted := message;
      var i := 0;
      assert secrets[0..] == secrets;
      while i < |secrets|
        invariant 0 <= i <= |secrets| && [] !in secrets[i..]
        invariant Redact(formatted, secrets) == Redact(message, secrets[i..])
      {
        assert secrets[i..][0] == secrets[i] && secrets[i..][1..] == secrets[i + 1..];
        if Contains(message, secrets[i]) {
          message := ReplaceAll(message, secrets[i], MARK);
        } else {
          NothingToReplace(message, secrets[i], MARK);
        }
        i := i + 1;
      }
      assert secrets[i..] == [];
      record.msg, record.args := message, [];
      return true;
    }
  }

  // -------------------------------------------------------------- what is kept

  /** The pieces with a separator between each two. */
  function Joined(pieces: seq<string>, separator: string): string
    requires pieces != []
  {
    if |pieces| == 1 then pieces[0] else pieces[0] + (separator + Joined(pieces[1..], separator))
  }

  /** `part` does not occur in `s` before position `n`. */
  predicate NotBefore(s: string, part: string, n: nat) {
    forall i :: 0 <= i < n ==> !OccursAt(s, part, i)
  }

  /** The pieces are what is left of a text when it is cut, from the left, at each
      occurrence of `part` that does not overlap the one before. */
  predicate Cut(pieces: seq<string>, part: string)
    requires pieces != []
  {
    if |pieces| == 1 then !Contains(pieces[0], part)
    else NotBefore(Joined(pieces, part), part, |pieces[0]|) && Cut(pieces[1..], part)
  }

  /** Masking keeps every piece of the message between the occurrences of the
      secret, in order, and puts the mask in place of each occurrence. */
  lemma {:induction false} MaskingKeepsPieces(s: string, part: string, mark: string) returns (pieces: seq<string>)
    requires part != []
    ensures pieces != [] && Cut(pieces, part)
    ensures s == Joined(pieces, part) && ReplaceAll(s, part, mark) == Joined(pieces, mark)
    decreases |s|
  {
    if s == [] {
      pieces := [[]];
    } else if OccursAt(s, part, 0) {
      var rest := MaskingKeepsPieces(s[|part|..], part, mark);
      pieces := [[]] + rest;
      assert pieces[1..] == rest;
      assert s == part + s[|part|..];
    } else {
      var rest := MaskingKeepsPieces(s[1..], part, mark);
      pieces := [[s[0]] + rest[0]] + rest[1..];
      Lengthened(rest, s[0], part);
      Lengthened(rest, s[0], mark);
      assert s == [s[0]] + s[1..];
      StillCut(rest, s, part);
    }
  }

  function LongerHead(pieces: seq<string>, c: char): seq<string>
    requires pieces != []
  {
    [[c] + pieces[0]] + pieces[1..]
  }

  lemma Lengthened(pieces: seq<string>, c: char, separator: string)
    requires pieces != []
    ensures Joined(LongerHead(pieces, c), separator) == [c] + Joined(pieces, separator)
  {
    var longer := LongerHead(pieces, c);
    assert longer[1..] == pieces[1..];
    if |pieces| > 1 {
      assert [c] + pieces[0] + (separator + Joined(pieces[1..], separator)) ==
             [c] + (pieces[0] + (separator + Joined(pieces[1..], separator)));
    }
  }

  lemma StillCut(pieces: seq<string>, s: string, part: string)
    requires part != [] && pieces != [] && Cut(pieces, part)
    requires s != [] && s[1..] == Joined(pieces, part) && !OccursAt(s, part, 0)
    ensures Cut(LongerHead(pieces, s[0]), part)
  {
    var longer := LongerHead(pieces, s[0]);
    Lengthened(pieces, s[0], part);
    assert s == [s[0]] + s[1..];
    assert longer[1..] == pieces[1..];
    assert NotBefore(s[1..], part, |pieces[0]|) by {
      if |pieces| == 1 {
        forall i | 0 <= i < |pieces[0]| ensures !OccursAt(s[1..], part, i) {
        }
      }
    }
    forall i | 0 <= i <= |s| && (i == 0 || !OccursAt(s[1..], part, i - 1)) ensures !OccursAt(s, part, i) {
      if i > 0 {
        Shifted([s[0]], s[1..], part, i);
      }
    }
    if |pieces| == 1 {
      forall i | 0 <= i <= |s| ensures !OccursAt(s, part, i) {
        assert i > 0 ==> !OccursAt(pieces[0], part, i - 1);
      }
    }
  }

  /** There is one way to cut a text. */
  lemma {:induction false} CutUnique(a: seq<string>, b: seq<string>, part: string)
    requires part != [] && a != [] && b != [] && Cut(a, part) && Cut(b, part)
    requires Joined(a, part) == Joined(b, part)
    ensures a == b
    decreases |a|
  {
    var s := Joined(a, part);
    FirstOccurrence(a, part);
    FirstOccurrence(b, part);
    if |a| > 1 {
      assert OccursAt(s, part, |a[0]|);
      assert |b| > 1;
      assert |a[0]| == |b[0]|;
      assert a[0] == s[..|a[0]|] == b[0];
      assert Joined(a[1..], part) == s[|a[0]| + |part|..] == Joined(b[1..], part);
      CutUnique(a[1..], b[1..], part);
      assert a == [a[0]] + a[1..] && b == [b[0]] + b[1..];
    } else {
      assert |b| == 1;
    }
  }

  lemma FirstOccurrence(pieces: seq<string>, part: string)
    requires pieces != [] && Cut(pieces, part)
    ensures var s := Joined(pieces, part);
      && (|pieces| == 1 <==> !Contains(s, part))
      && (|pieces| > 1 ==> OccursAt(s, part, |pieces[0]|) && NotBefore(s, part, |pieces[0]|))
  {
    if |pieces| > 1 {
      var s := Joined(pieces, part);
      assert s[|pieces[0]|..|pieces[0]| + |part|] == part;
      assert OccursAt(s, part, |pieces[0]|);
    }
  }

  /** `after` is `before` with the secret masked and everything else kept. */
  ghost predicate Masked(before: string, after: string, secret: string) {
    exists pieces :: pieces != [] && Cut(pieces, secret) && before == Joined(pieces, secret) && after == Joined(pieces, "[REDACTED]")
  }

  /** Each secret is masked in what masking the ones before it has left. */
  ghost predicate MaskedInTurn(message: string, secrets: seq<string>, result: string)
    decreases |secrets|
  {
    if secrets == [] then result == message
    else exists next :: Masked(message, next, secrets[0]) && MaskedInTurn(next, secrets[1..], result)
  }

  /** The filter's result is the message with the secrets masked in turn, and
      nothing else is: there is no other text of which that is true. */
  lemma {:induction false} RedactExactly(message: string, secrets: seq<string>, result: string)
    requires [] !in secrets
    ensures MaskedInTurn(message, secrets, result) <==> result == Redact(message, secrets)
    decreases |secrets|
  {
    if secrets != [] {
      assert secrets[0] in secrets;
      var pieces := MaskingKeepsPieces(message, secrets[0], MARK);
      var masked := ReplaceAll(message, secrets[0], MARK);
      assert Masked(message, masked, secrets[0]);
      RedactExactly(masked, secrets[1..], result);
      forall next | Masked(message, next, secrets[0]) ensures next == masked {
        var others :| others != [] && Cut(others, secrets[0]) && message == Joined(others, secrets[0]) && next == Joined(others, MARK);
        CutUnique(others, pieces, secrets[0]);
      }
    }
  }

  // ------------------------------------------------------------------ occurrences

  lemma {:induction false} NothingToReplace(s: string, part: string, mark: string)
    requires part != [] && !Contains(s, part)
    ensures ReplaceAll(s, part, mark) == s
    decreases |s|
  {
    if s != [] {
      assert !OccursAt(s, part, 0);
      forall i | 0 <= i <= |s[1..]| ensures !OccursAt(s[1..], part, i) {
        assert !OccursAt(s, part, i + 1);
        assert i + |part| <= |s[1..]| ==> s[1..][i..i + |part|] == s[i + 1..i + 1 + |part|];
      }
      NothingToReplace(s[1..], part, mark);
      assert s == [s[0]] + s[1..];
    }
  }

  /** One is a prefix of the other. */
  predicate Agree(a: string, b: string) {
    a <= b || b <= a
  }

  /** Some occurrence of `part` could overlap `mark`. */
  predicate Touches(part: string, mark: string) {
    || (exists i :: 0 <= i < |mark| && Agree(part, mark[i..]))
    || (exists t :: 0 <= t < |part| && Agree(part[t..], mark))
  }

  predicate SharesCharacter(part: string, mark: string) {
    exists c :: c in part && c in mark
  }

  lemma TouchingShares(part: string, mark: string)
    requires part != [] && mark != [] && !SharesCharacter(part, mark)
    ensures !Touches(part, mark)
  {
    forall i | 0 <= i < |mark| ensures !Agree(part, mark[i..]) {
      assert part[0] in part && mark[i] in mark;
      assert mark[i..][0] == mark[i];
    }
    forall t | 0 <= t < |part| ensures !Agree(part[t..], mark) {
      assert part[t] in part && mark[0] in mark;
      assert part[t..][0] == part[t];
    }
  }

  /** No part of `part` can lie over the mask. */
  lemma OffTheMask(part: string, mark: string, rest: string, i: nat)
    requires !Touches(part, mark)
    ensures i < |mark| ==> !OccursAt(mark + rest, part, i)
    ensures i < |part| ==> !(part[i..] <= mark + rest)
  {
    var whole := mark + rest;
    if i < |mark| && OccursAt(whole, part, i) {
      assert whole[i..] == mark[i..] + rest;
      assert whole[i..][..|part|] == part;
      PrefixesAgree(part, mark[i..], whole[i..]);
    }
    if i < |part| && part[i..] <= whole {
      assert whole[..|mark|] == mark;
      PrefixesAgree(part[i..], mark, whole);
    }
  }

  lemma PrefixesAgree(a: string, b: string, whole: string)
    requires a <= whole && b <= whole
    ensures Agree(a, b)
  {
    if |a| <= |b| {
      assert a == whole[..|a|] == b[..|a|];
    } else {
      assert b == whole[..|b|] == a[..|b|];
    }
  }

  /** What starts a masked text, clear of the mask, started the original. */
  lemma {:induction false} StartSurvives(s: string, part: string, mark: string, other: string, t: nat)
    requires part != [] && !Touches(other, mark) && t <= |other|
    ensures other[t..] <= ReplaceAll(s, part, mark) ==> other[t..] <= s
    decreases |s|
  {
    if t < |other| && s != [] {
      if OccursAt(s, part, 0) {
        OffTheMask(other, mark, ReplaceAll(s[|part|..], part, mark), t);
      } else {
        var rest := ReplaceAll(s[1..], part, mark);
        StartSurvives(s[1..], part, mark, other, t + 1);
        if other[t..] <= [s[0]] + rest {
          assert other[t..] == [other[t]] + other[t + 1..];
          assert ([s[0]] + rest)[1..] == rest;
          assert s == [s[0]] + s[1..];
        }
      }
    }
  }

  /** Masking a secret removes it and brings no other secret into being, as long
      as none can overlap the mask. */
  lemma {:induction false} MaskingIntroducesNothing(s: string, part: string, mark: string, other: string, i: nat)
    requires part != [] && other != [] && !Touches(other, mark)
    ensures OccursAt(ReplaceAll(s, part, mark), other, i) ==> other != part && Contains(s, other)
    decreases |s|
  {
    var out := ReplaceAll(s, part, mark);
    if s != [] {
      if OccursAt(s, part, 0) {
        var rest := ReplaceAll(s[|part|..], part, mark);
        OffTheMask(other, mark, rest, i);
        if i >= |mark| {
          MaskingIntroducesNothing(s[|part|..], part, mark, other, i - |mark|);
          ContainsLater(s, |part|, other);
          Shifted(mark, rest, other, i);
        }
      } else if i == 0 {
        StartSurvives(s, part, mark, other, 0);
        assert other[0..] == other;
        assert other <= s ==> OccursAt(s, other, 0);
      } else {
        var rest := ReplaceAll(s[1..], part, mark);
        MaskingIntroducesNothing(s[1..], part, mark, other, i - 1);
        ContainsLater(s, 1, other);
        Shifted([s[0]], rest, other, i);
      }
    }
  }

  lemma Shifted(front: string, rest: string, part: string, i: nat)
    requires |front| <= i
    ensures OccursAt(front + rest, part, i) ==> OccursAt(rest, part, i - |front|)
  {
    if OccursAt(front + rest, part, i) {
      assert rest[i - |front|..i - |front| + |part|] == (front + rest)[i..i + |part|];
    }
  }

  lemma ContainsLater(s: string, k: nat, part: string)
    requires k <= |s|
    ensures Contains(s[k..], part) ==> Contains(s, part)
  {
    if Contains(s[k..], part) {
      var i :| 0 <= i <= |s[k..]| && OccursAt(s[k..], part, i);
      assert s[k..][i..i + |part|] == s[k + i..k + i + |part|];
      assert OccursAt(s, part, k + i);
    }
  }

  // ----------------------------------------------------------------- main results

  ghost predicate NoneTouches(secrets: seq<string>) {
    forall i :: 0 <= i < |secrets| ==> secrets[i] != [] && !Touches(secrets[i], MARK)
  }

  /** A secret in the result would have been in the message and not among those
      masked. */
  lemma {:induction false} RedactIntroducesNothing(message: string, secrets: seq<string>, other: string)
    requires NoneTouches(secrets) && [] !in secrets && other != [] && !Touches(other, MARK)
    requires Contains(Redact(message, secrets), other)
    ensures Contains(message, other) && other !in secrets
    decreases |secrets|
  {
    if secrets != [] {
      var masked := ReplaceAll(message, secrets[0], MARK);
      RedactIntroducesNothing(masked, secrets[1..], other);
      var i :| 0 <= i <= |masked| && OccursAt(masked, other, i);
      MaskingIntroducesNothing(message, secrets[0], MARK, other, i);
      assert forall k :: 0 <= k < |secrets| && k != 0 ==> secrets[k] == secrets[1..][k - 1];
    }
  }

  /** No registered secret is left, whatever their number and order, if none can
      overlap the mask. */
  lemma NoSecretLeft(message: string, secrets: seq<string>)
    requires NoneTouches(secrets) && [] !in secrets
    ensures forall k :: 0 <= k < |secrets| ==> !Contains(Redact(message, secrets), secrets[k])
  {
    forall k | 0 <= k < |secrets| ensures !Contains(Redact(message, secrets), secrets[k]) {
      if Contains(Redact(message, secrets), secrets[k]) {
        RedactIntroducesNothing(message, secrets, secrets[k]);
      }
    }
  }

  lemma {:induction false} NothingToRedact(message: string, secrets: seq<string>)
    requires [] !in secrets && forall k :: 0 <= k < |secrets| ==> !Contains(message, secrets[k])
    ensures Redact(message, secrets) == message
    decreases |secrets|
  {
    if secrets != [] {
      assert secrets[0] in secrets;
      NothingToReplace(message, secrets[0], MARK);
      NothingToRedact(message, secrets[1..]);
    }
  }

  /** In particular if no secret shares a character with the mask: then none is
      left and filtering again changes nothing. */
  lemma FilterRemovesSecrets(message: string, secrets: seq<string>)
    requires [] !in secrets && forall k :: 0 <= k < |secrets| ==> !SharesCharacter(secrets[k], MARK)
    ensures var out := Redact(message, secrets);
      && (forall k :: 0 <= k < |secrets| ==> !Contains(out, secrets[k]))
      && Redact(out, secrets) == out
  {
    forall k | 0 <= k < |secrets| ensures secrets[k] != [] && !Touches(secrets[k], MARK) {
      assert secrets[k] in secrets;
      TouchingShares(secrets[k], MARK);
    }
    NoSecretLeft(message, secrets);
    NothingToRedact(Redact(message, secrets), secrets);
  }

  /** A secret that occurs in the mask is still there after it has been masked. */
  lemma MaskedByItself(secret: string)
    requires secret != [] && Contains(MARK, secret)
    ensures Contains(Redact(secret, [secret]), secret)
  {
    assert OccursAt(secret, secret, 0);
    assert secret[|secret|..] == [];
    assert ReplaceAll(secret, secret, MARK) == MARK + [];
    assert Redact(secret, [secret]) == Redact(MARK, []);
  }
}
