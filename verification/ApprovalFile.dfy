/** The owner approval as a file: fields by name, times as text, the 64-byte
    proof in hexadecimal (signing/shape_a_batch_owner_approval.py). */
module ApprovalFile {
  import opened Options
  import opened Ordering
  import opened Text
  import B = BatchSigning

  type Byte = b: int | 0 <= b < 256 witness 0

  // ------------------------------------------------------------------ hexadecimal

  function HexDigit(n: int): char
    requires 0 <= n < 16
  {
    if n < 10 then '0' + n as char else 'a' + (n - 10) as char
  }

  function DigitValue(c: char): Option<int> {
    if '0' <= c <= '9' then Some(c as int - '0' as int)
    else if 'a' <= c <= 'f' then Some(c as int - 'a' as int + 10)
    else if 'A' <= c <= 'F' then Some(c as int - 'A' as int + 10)
    else None
  }

  function Hex(bytes: seq<Byte>): string {
    if bytes == [] then [] else [HexDigit(bytes[0] / 16), HexDigit(bytes[0] % 16)] + Hex(bytes[1..])
  }

  /** Space is skipped between bytes, but not within one. */
  function FromHex(s: string): Option<seq<Byte>> {
    if s == [] then Some([])
    else if AsciiSpace(s[0]) then FromHex(s[1..])
    else if |s| == 1 then None
    else
      match (DigitValue(s[0]), DigitValue(s[1]))
      case (Some(hi), Some(lo)) =>
        (match FromHex(s[2..])
         case None => None
         case Some(rest) =>
           assert 0 <= hi < 16 && 0 <= lo < 16;
           var b: Byte := hi * 16 + lo;
           Some([b] + rest))
      case _ => None
  }

  lemma DigitRoundTrip(n: int)
    requires 0 <= n < 16
    ensures DigitValue(HexDigit(n)) == Some(n) && !AsciiSpace(HexDigit(n))
  {
  }

  lemma {:induction false} HexRoundTrip(bytes: seq<Byte>)
    ensures FromHex(Hex(bytes)) == Some(bytes)
  {
    if bytes != [] {
      DigitRoundTrip(bytes[0] / 16);
      DigitRoundTrip(bytes[0] % 16);
      assert Hex(bytes)[2..] == Hex(bytes[1..]);
      HexRoundTrip(bytes[1..]);
      assert bytes == [bytes[0]] + bytes[1..];
    }
  }

  predicate AllSpace(s: string) {
    forall i :: 0 <= i < |s| ==> AsciiSpace(s[i])
  }

  /** The digit worth `n`, in either case. */
  predicate WrittenDigit(c: char, n: int) {
    if n < 10 then 0 <= n == c as int - '0' as int
    else n < 16 && (n - 10 == c as int - 'a' as int || n - 10 == c as int - 'A' as int)
  }

  lemma DigitExactly(c: char, n: int)
    ensures DigitValue(c) == Some(n) <==> WrittenDigit(c, n)
  {
  }

  predicate Spells(pair: string, b: Byte) {
    |pair| == 2 && WrittenDigit(pair[0], b / 16) && WrittenDigit(pair[1], b % 16)
  }

  /** Each pair of digits after its gap, and one more gap. */
  function Spaced(gaps: seq<string>, pairs: seq<string>): string
    requires |gaps| == |pairs| + 1
  {
    if pairs == [] then gaps[0] else gaps[0] + (pairs[0] + Spaced(gaps[1..], pairs[1..]))
  }

  ghost predicate Spelling(s: string, bytes: seq<Byte>, gaps: seq<string>, pairs: seq<string>) {
    && |pairs| == |bytes| && |gaps| == |bytes| + 1 && s == Spaced(gaps, pairs)
    && (forall i :: 0 <= i < |gaps| ==> AllSpace(gaps[i]))
    && (forall i :: 0 <= i < |pairs| ==> Spells(pairs[i], bytes[i]))
  }

  lemma {:induction false} SkipsSpace(gap: string, s: string)
    requires AllSpace(gap)
    ensures FromHex(gap + s) == FromHex(s)
  {
    if gap == [] {
      assert gap + s == s;
    } else {
      SkipsSpace(gap[1..], s);
      assert (gap + s)[1..] == gap[1..] + s;
    }
  }

  lemma ReadsPair(pair: string, b: Byte, s: string)
    requires Spells(pair, b)
    ensures FromHex(pair + s) == match FromHex(s) case None => None case Some(rest) => Some([b] + rest)
  {
    DigitExactly(pair[0], b / 16);
    DigitExactly(pair[1], b % 16);
    assert (pair + s)[2..] == s;
    assert b / 16 * 16 + b % 16 == b;
  }

  lemma {:induction false} ReadsSpelling(s: string, bytes: seq<Byte>, gaps: seq<string>, pairs: seq<string>)
    requires Spelling(s, bytes, gaps, pairs)
    ensures FromHex(s) == Some(bytes)
    decreases bytes
  {
    if bytes == [] {
      SkipsSpace(gaps[0], "");
      assert gaps[0] + "" == gaps[0];
    } else {
      var rest := Spaced(gaps[1..], pairs[1..]);
      ReadsSpelling(rest, bytes[1..], gaps[1..], pairs[1..]);
      ReadsPair(pairs[0], bytes[0], rest);
      SkipsSpace(gaps[0], pairs[0] + rest);
      assert bytes == [bytes[0]] + bytes[1..];
    }
  }

  lemma {:induction false} SpellingOf(s: string) returns (gaps: seq<string>, pairs: seq<string>)
    requires FromHex(s).Some?
    ensures Spelling(s, FromHex(s).value, gaps, pairs)
  {
    if s == [] {
      gaps, pairs := [""], [];
    } else if AsciiSpace(s[0]) {
      gaps, pairs := SpellingOf(s[1..]);
      LongerGap(s[0], s[1..], FromHex(s).value, gaps, pairs);
      gaps := [[s[0]] + gaps[0]] + gaps[1..];
      assert s == [s[0]] + s[1..];
    } else {
      var g, p := SpellingOf(s[2..]);
      var b := FromHex(s).value[0];
      DigitExactly(s[0], b / 16);
      DigitExactly(s[1], b % 16);
      gaps, pairs := [""] + g, [s[..2]] + p;
      assert gaps[1..] == g && pairs[1..] == p;
      assert s == "" + (s[..2] + s[2..]);
    }
  }

  lemma LongerGap(c: char, s: string, bytes: seq<Byte>, gaps: seq<string>, pairs: seq<string>)
    requires AsciiSpace(c) && Spelling(s, bytes, gaps, pairs)
    ensures Spelling([c] + s, bytes, [[c] + gaps[0]] + gaps[1..], pairs)
  {
    var longer := [[c] + gaps[0]] + gaps[1..];
    assert longer[1..] == gaps[1..];
    if pairs != [] {
      var rest := pairs[0] + Spaced(gaps[1..], pairs[1..]);
      assert [c] + (gaps[0] + rest) == ([c] + gaps[0]) + rest;
    }
  }

  /** A text is read as bytes exactly when it spells them, two digits each, with
      space only around the pairs. */
  lemma HexReadsExactly(s: string, bytes: seq<Byte>)
    ensures FromHex(s) == Some(bytes) <==> exists gaps, pairs :: Spelling(s, bytes, gaps, pairs)
  {
    if FromHex(s) == Some(bytes) {
      var gaps, pairs := SpellingOf(s);
    }
    if gaps, pairs :| Spelling(s, bytes, gaps, pairs) {
      ReadsSpelling(s, bytes, gaps, pairs);
    }
  }

  // ------------------------------------------------------------------- the record

  type Entry = B.Entry

  /** An approval field by field, with its digest and proof as they are written. */
  datatype Record = Record(
    schemaVersion: int, batchId: string, manifestDigest: string, planDigest: string, stepId: string,
    posture: string, assurance: string, entries: seq<Entry>, issuedAt: int, expiresAt: int,
    authorityId: string, proof: seq<Byte>)

  /** The values the two enumerations know. */
  datatype Enums = Enums(postures: set<string>, assurances: set<string>)

  predicate ValidEntry(e: Entry) {
    SafeToken(e.capability) && HexDigest(e.intentDigest) && SafeToken(e.authorizationId)
  }

  predicate Valid(a: Record, enums: Enums) {
    && a.schemaVersion == 1 && SafeToken(a.batchId) && HexDigest(a.manifestDigest) && HexDigest(a.planDigest) && SafeToken(a.stepId)
    && a.posture in enums.postures && a.assurance in enums.assurances
    && a.entries != [] && (forall i :: 0 <= i < |a.entries| ==> ValidEntry(a.entries[i]))
    && (forall i, j :: 0 <= i < j < |a.entries| ==> a.entries[i].capability != a.entries[j].capability)
    && (forall i, j :: 0 <= i < j < |a.entries| ==> a.entries[i].authorizationId != a.entries[j].authorizationId)
    && (forall i, j :: 0 <= i < j < |a.entries| ==> AtMost(a.entries[i].capability, a.entries[j].capability))
    && a.issuedAt < a.expiresAt && SafeToken(a.authorityId) && |a.proof| == 64
  }

  // --------------------------------------------------------------------- the file

  datatype Field =
    | DigestPurpose | SchemaVersion | BatchId | ManifestDigest | PlanDigest | StepId | Posture | Assurance | Entries
    | IssuedAt | ExpiresAt | AuthorityId | ProofHex | Capability | IntentDigest | AuthorizationId | Unexpected(name: string)

  /** A JSON value; a time stands for its text. */
  datatype Value = Str(s: string) | Num(n: int) | Null | Time(at: int, utc: bool) | List(items: seq<Value>) | Object(fields: map<Field, Value>)

  const FIELDS: set<Field> := {
    DigestPurpose, SchemaVersion, BatchId, ManifestDigest, PlanDigest, StepId, Posture, Assurance, Entries,
    IssuedAt, ExpiresAt, AuthorityId, ProofHex}

  const PURPOSE: string := "pfsense-mcp-shape-a-batch-owner-approval-v1"

  function EntryValue(e: Entry): Value {
    Object(map[Capability := Str(e.capability), IntentDigest := Str(e.intentDigest), AuthorizationId := Str(e.authorizationId)])
  }

  function ToFile(a: Record): Value {
    Object(map[
      DigestPurpose := Str(PURPOSE), SchemaVersion := Num(a.schemaVersion), BatchId := Str(a.batchId),
      ManifestDigest := Str(a.manifestDigest), PlanDigest := Str(a.planDigest), StepId := Str(a.stepId),
      Posture := Str(a.posture), Assurance := Str(a.assurance),
      Entries := List(seq(|a.entries|, i requires 0 <= i < |a.entries| => EntryValue(a.entries[i]))),
      IssuedAt := Time(a.issuedAt, true), ExpiresAt := Time(a.expiresAt, true),
      AuthorityId := Str(a.authorityId), ProofHex := Str(Hex(a.proof))])
  }

  /** Python's `str` of a JSON value. */
  function AsText(v: Value, str: Value -> string): string {
    if v.Str? then v.s else str(v)
  }

  function EntryOf(v: Value, str: Value -> string): Option<Entry> {
    if !v.Object? || Capability !in v.fields || IntentDigest !in v.fields || AuthorizationId !in v.fields then None
    else
      var e := B.Entry(AsText(v.fields[Capability], str), AsText(v.fields[IntentDigest], str), AsText(v.fields[AuthorizationId], str));
      if ValidEntry(e) then Some(e) else None
  }

  function EntriesOf(items: seq<Value>, str: Value -> string): Option<seq<Entry>> {
    if items == [] then Some([])
    else
      match (EntryOf(items[0], str), EntriesOf(items[1..], str))
      case (Some(e), Some(rest)) => Some([e] + rest)
      case _ => None
  }

  /** The fields that must hold text and the ones that must parse. */
  datatype Parsed = Parsed(proof: seq<Byte>, entries: seq<Entry>)

  function Parse(f: map<Field, Value>, str: Value -> string): Option<Parsed>
    requires f.Keys == FIELDS
  {
    if !f[ProofHex].Str? || !f[Entries].List? then None
    else
      match (FromHex(f[ProofHex].s), EntriesOf(f[Entries].items, str))
      case (Some(proof), Some(entries)) => Some(Parsed(proof, entries))
      case _ => None
  }

  predicate Typed(f: map<Field, Value>)
    requires f.Keys == FIELDS
  {
    && f[SchemaVersion].Num? && f[BatchId].Str? && f[ManifestDigest].Str? && f[PlanDigest].Str? && f[StepId].Str?
    && f[Posture].Str? && f[Assurance].Str? && f[AuthorityId].Str?
    && f[IssuedAt].Time? && f[IssuedAt].utc && f[ExpiresAt].Time? && f[ExpiresAt].utc
  }

  function Build(f: map<Field, Value>, p: Parsed): Record
    requires f.Keys == FIELDS && Typed(f)
  {
    Record(
      f[SchemaVersion].n, f[BatchId].s, f[ManifestDigest].s, f[PlanDigest].s, f[StepId].s, f[Posture].s, f[Assurance].s,
      p.entries, f[IssuedAt].at, f[ExpiresAt].at, f[AuthorityId].s, p.proof)
  }

  /** The purpose named in the file is not looked at. */
  function FromFile(v: Value, enums: Enums, str: Value -> string): Option<Record> {
    if !v.Object? || v.fields.Keys != FIELDS then None
    else
      var f := v.fields;
      match Parse(f, str)
      case None => None
      case Some(p) =>
        if !Typed(f) then None
        else
          var a := Build(f, p);
          if Valid(a, enums) then Some(a) else None
  }

  lemma {:induction false} EntriesRoundTrip(entries: seq<Entry>, items: seq<Value>, str: Value -> string)
    requires |items| == |entries|
    requires forall i :: 0 <= i < |entries| ==> ValidEntry(entries[i]) && items[i] == EntryValue(entries[i])
    ensures EntriesOf(items, str) == Some(entries)
  {
    if entries != [] {
      EntriesRoundTrip(entries[1..], items[1..], str);
      assert entries == [entries[0]] + entries[1..];
    }
  }

  lemma ParsesBack(a: Record, str: Value -> string)
    requires forall i :: 0 <= i < |a.entries| ==> ValidEntry(a.entries[i])
    ensures var f := ToFile(a).fields; f.Keys == FIELDS && Parse(f, str) == Some(Parsed(a.proof, a.entries))
  {
    var f := ToFile(a).fields;
    assert f.Keys == FIELDS;
    HexRoundTrip(a.proof);
    EntriesRoundTrip(a.entries, f[Entries].items, str);
  }

  lemma BuildsBack(a: Record)
    ensures var f := ToFile(a).fields; f.Keys == FIELDS && Typed(f) && Build(f, Parsed(a.proof, a.entries)) == a
  {
    var f := ToFile(a).fields;
    assert f.Keys == FIELDS;
  }

  /** An approval read back from its file equals the original, proof included, so
      it verifies as the original does. */
  lemma ApprovalRoundTrip(a: Record, enums: Enums, str: Value -> string)
    requires Valid(a, enums)
    ensures FromFile(ToFile(a), enums, str) == Some(a)
  {
    ParsesBack(a, str);
    BuildsBack(a);
  }

  // ---------------------------------------------------------- what a file means

  /** The entry's three fields are there, and their texts are safe. */
  predicate EntryHolds(v: Value, e: Entry, str: Value -> string) {
    && v.Object? && {Capability, IntentDigest, AuthorizationId} <= v.fields.Keys
    && e.capability == AsText(v.fields[Capability], str) && SafeToken(e.capability)
    && e.intentDigest == AsText(v.fields[IntentDigest], str) && HexDigest(e.intentDigest)
    && e.authorizationId == AsText(v.fields[AuthorizationId], str) && SafeToken(e.authorizationId)
  }

  lemma {:induction false} EntriesExactly(items: seq<Value>, entries: seq<Entry>, str: Value -> string)
    ensures EntriesOf(items, str) == Some(entries) <==>
            |items| == |entries| && forall i :: 0 <= i < |items| ==> EntryHolds(items[i], entries[i], str)
  {
    if items != [] && entries != [] {
      EntriesExactly(items[1..], entries[1..], str);
      assert entries == [entries[0]] + entries[1..];
      assert EntryOf(items[0], str) == Some(entries[0]) <==> EntryHolds(items[0], entries[0], str);
    }
  }

  /** Every field holds the record's value; the purpose may hold anything. */
  ghost predicate Holds(f: map<Field, Value>, a: Record, str: Value -> string) {
    && f.Keys == FIELDS
    && f[SchemaVersion] == Num(a.schemaVersion) && f[BatchId] == Str(a.batchId) && f[ManifestDigest] == Str(a.manifestDigest)
    && f[PlanDigest] == Str(a.planDigest) && f[StepId] == Str(a.stepId) && f[Posture] == Str(a.posture)
    && f[Assurance] == Str(a.assurance) && f[AuthorityId] == Str(a.authorityId)
    && f[IssuedAt] == Time(a.issuedAt, true) && f[ExpiresAt] == Time(a.expiresAt, true)
    && f[ProofHex].Str? && FromHex(f[ProofHex].s) == Some(a.proof)
    && f[Entries].List? && |f[Entries].items| == |a.entries|
    && forall i :: 0 <= i < |a.entries| ==> EntryHolds(f[Entries].items[i], a.entries[i], str)
  }

  lemma ParsesExactly(f: map<Field, Value>, str: Value -> string, p: Parsed)
    requires f.Keys == FIELDS
    ensures Parse(f, str) == Some(p) <==>
      && f[ProofHex].Str? && FromHex(f[ProofHex].s) == Some(p.proof)
      && f[Entries].List? && |f[Entries].items| == |p.entries|
      && forall i :: 0 <= i < |p.entries| ==> EntryHolds(f[Entries].items[i], p.entries[i], str)
  {
    if f[Entries].List? {
      EntriesExactly(f[Entries].items, p.entries, str);
    }
  }

  /** The form every approval must have: at least one entry, in strict order of
      capability, no identifier twice, a lifetime, and a 64-byte proof. */
  predicate Acceptable(a: Record, enums: Enums) {
    && a.schemaVersion == 1 && a.posture in enums.postures && a.assurance in enums.assurances
    && SafeToken(a.batchId) && SafeToken(a.stepId) && SafeToken(a.authorityId)
    && HexDigest(a.manifestDigest) && HexDigest(a.planDigest)
    && |a.entries| > 0 && a.issuedAt < a.expiresAt && |a.proof| == 64
    && (forall i :: 0 < i < |a.entries| ==> Less(a.entries[i - 1].capability, a.entries[i].capability))
    && (forall i, j :: 0 <= i < |a.entries| && 0 <= j < |a.entries| && a.entries[i].authorizationId == a.entries[j].authorizationId ==> i == j)
  }

  predicate SafeEntries(a: Record) {
    forall i :: 0 <= i < |a.entries| ==> ValidEntry(a.entries[i])
  }

  lemma {:induction false} Ascends(entries: seq<Entry>, i: nat, j: nat)
    requires forall k :: 0 < k < |entries| ==> Less(entries[k - 1].capability, entries[k].capability)
    requires i < j < |entries|
    ensures Less(entries[i].capability, entries[j].capability)
    decreases j
  {
    if i + 1 < j {
      Ascends(entries, i, j - 1);
      LessTransitive(entries[i].capability, entries[j - 1].capability, entries[j].capability);
    }
  }

  lemma AcceptableExactly(a: Record, enums: Enums)
    ensures Valid(a, enums) <==> Acceptable(a, enums) && SafeEntries(a)
  {
    if Valid(a, enums) {
      forall i | 0 < i < |a.entries| ensures Less(a.entries[i - 1].capability, a.entries[i].capability) {
        if !Less(a.entries[i - 1].capability, a.entries[i].capability) {
          LessTotal(a.entries[i - 1].capability, a.entries[i].capability);
        }
      }
    }
    if Acceptable(a, enums) {
      forall i, j | 0 <= i < j < |a.entries|
        ensures a.entries[i].capability != a.entries[j].capability && AtMost(a.entries[i].capability, a.entries[j].capability)
      {
        Ascends(a.entries, i, j);
        LessIrreflexive(a.entries[i].capability);
        NotBefore(a.entries[i].capability, a.entries[j].capability);
      }
    }
  }

  /** A file is read as an approval exactly when its fields hold that approval's
      values and the approval has the form it must have. */
  lemma FileReadsExactly(v: Value, a: Record, enums: Enums, str: Value -> string)
    ensures FromFile(v, enums, str) == Some(a) <==> v.Object? && Holds(v.fields, a, str) && Acceptable(a, enums)
  {
    if v.Object? && v.fields.Keys == FIELDS {
      var f := v.fields;
      ParsesExactly(f, str, Parsed(a.proof, a.entries));
      AcceptableExactly(a, enums);
      assert Holds(f, a, str) ==> SafeEntries(a);
      if FromFile(v, enums, str) == Some(a) {
        assert Parse(f, str) == Some(Parsed(a.proof, a.entries));
      }
    }
  }

  lemma HoldsParsed(f: map<Field, Value>, a: Record, str: Value -> string)
    requires f.Keys == FIELDS && Typed(f) && Parse(f, str) == Some(Parsed(a.proof, a.entries))
    requires Build(f, Parsed(a.proof, a.entries)) == a
    ensures Holds(f, a, str)
  {
    ParsesExactly(f, str, Parsed(a.proof, a.entries));
  }

  lemma PurposeWritten(a: Record)
    ensures ToFile(a).fields[DigestPurpose] == Str("pfsense-mcp-shape-a-batch-owner-approval-v1")
  {
  }

  /** What is written holds the approval's values, and names its purpose. */
  lemma FileHolds(a: Record, str: Value -> string)
    requires SafeEntries(a)
    ensures var f := ToFile(a).fields;
      Holds(f, a, str) && f[DigestPurpose] == Str("pfsense-mcp-shape-a-batch-owner-approval-v1")
  {
    ParsesBack(a, str);
    BuildsBack(a);
    HoldsParsed(ToFile(a).fields, a, str);
    PurposeWritten(a);
  }

  // ------------------------------------------------- the approval the batch signs

  /** The record of a batch's approval. An ideal digest determines its manifest,
      and the encoding of a proof the proof. */
  function RecordOf(ap: B.Approval, digest: B.Manifest -> string, encode: B.Proof -> seq<Byte>): Record {
    var p := ap.payload;
    Record(
      1, p.batchId, digest(p.manifestDigest), p.planDigest, p.stepId, p.posture, p.assurance, p.entries, p.issuedAt, p.expiresAt,
      ap.authorityId, encode(ap.proof))
  }

  /** Digests are 64 hexadecimal digits, proofs 64 bytes. */
  ghost predicate WellSized(digest: B.Manifest -> string, encode: B.Proof -> seq<Byte>) {
    (forall m :: HexDigest(digest(m))) && forall p :: |encode(p)| == 64
  }

  predicate SafeNames(ap: B.Approval, enums: Enums) {
    var p := ap.payload;
    && SafeToken(p.batchId) && SafeToken(p.stepId) && SafeToken(ap.authorityId) && HexDigest(p.planDigest)
    && p.posture in enums.postures && p.assurance in enums.assurances
    && forall i :: 0 <= i < |p.entries| ==> ValidEntry(p.entries[i])
  }

  lemma StrictOrder(entries: seq<Entry>, i: nat, j: nat)
    requires i < j < |entries|
    requires forall k, l :: 0 <= k < l < |entries| ==> entries[k].capability != entries[l].capability
    requires forall k, l :: 0 <= k < l < |entries| ==> AtMost(entries[k].capability, entries[l].capability)
    ensures Less(entries[i].capability, entries[j].capability)
  {
    if !Less(entries[i].capability, entries[j].capability) {
      LessTotal(entries[i].capability, entries[j].capability);
    }
  }

  /** An approval made of safe names has the form its file must have exactly when
      its payload passed the checks of its construction. */
  lemma ApprovalFits(ap: B.Approval, digest: B.Manifest -> string, encode: B.Proof -> seq<Byte>, enums: Enums)
    requires WellSized(digest, encode) && SafeNames(ap, enums)
    ensures Acceptable(RecordOf(ap, digest, encode), enums) <==> B.ValidPayload(ap.payload)
  {
    var entries := ap.payload.entries;
    if B.ValidPayload(ap.payload) {
      forall i | 0 < i < |entries| ensures Less(entries[i - 1].capability, entries[i].capability) {
        StrictOrder(entries, i - 1, i);
      }
    }
    if Acceptable(RecordOf(ap, digest, encode), enums) {
      forall i, j | 0 <= i < j < |entries|
        ensures entries[i].capability != entries[j].capability && AtMost(entries[i].capability, entries[j].capability)
      {
        Ascends(entries, i, j);
        LessIrreflexive(entries[i].capability);
        NotBefore(entries[i].capability, entries[j].capability);
      }
    }
  }

  ghost predicate Injective<A(!new), C>(f: A -> C) {
    forall x, y :: f(x) == f(y) ==> x == y
  }

  /** So an approval that is written and read back is the approval that was
      signed, and verifies exactly when that one does. */
  lemma ReadBackIsSame(
      a: B.Approval, b: B.Approval, digest: B.Manifest -> string, encode: B.Proof -> seq<Byte>,
      enums: Enums, str: Value -> string, authorities: map<string, nat>)
    requires Injective(digest) && Injective(encode)
    ensures Valid(RecordOf(a, digest, encode), enums) && ReadsAs(RecordOf(a, digest, encode), RecordOf(b, digest, encode), enums, str) ==>
              && b == a
              && (B.Verifies(authorities, b.authorityId, B.ApprovalMessage(b.payload), b.proof) <==>
                  B.Verifies(authorities, a.authorityId, B.ApprovalMessage(a.payload), a.proof))
  {
    if Valid(RecordOf(a, digest, encode), enums) && ReadsAs(RecordOf(a, digest, encode), RecordOf(b, digest, encode), enums, str) {
      ApprovalRoundTrip(RecordOf(a, digest, encode), enums, str);
      assert a.payload.manifestDigest == b.payload.manifestDigest && a.proof == b.proof;
    }
  }

  /** What is written as `written` is read as `read`. */
  predicate ReadsAs(written: Record, read: Record, enums: Enums, str: Value -> string) {
    FromFile(ToFile(written), enums, str) == Some(read)
  }
}
