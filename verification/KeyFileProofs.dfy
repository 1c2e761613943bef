/** What storing a key guarantees, whatever fails and whatever others do. */
module KeyFileProofs {
  import opened Options
  import opened KeyFiles

  // --------------------------------------------------------------- the write loop

  /** Only `inode`'s contents differ, by the first `n` bytes of `value`. */
  ghost predicate Extended(a: Disk, b: Disk, inode: nat, value: seq<Byte>, n: nat) {
    && n <= |value| && inode in a.files && inode in b.files
    && b.names == a.names && b.files.Keys == a.files.Keys
    && (forall i :: i in a.files && i != inode ==> b.files[i] == a.files[i])
    && b.files[inode] == a.files[inode].(bytes := a.files[inode].bytes + value[..n])
  }

  /** The first write already fails. */
  predicate NothingTaken(writes: seq<Write>) {
    writes != [] && (writes[0].Fails? || writes[0].n <= 0)
  }

  lemma {:induction false} WritingAppends(d: Disk, inode: nat, value: seq<Byte>, writes: seq<Write>) returns (n: nat)
    requires inode in d.files
    ensures Extended(d, Writing(d, inode, value, writes).0, inode, value, n)
    ensures Writing(d, inode, value, writes).1 ==> n == |value|
    ensures n == 0 <==> value == [] || NothingTaken(writes)
    decreases |value|
  {
    var had := d.files[inode].bytes;
    if value == [] || (writes != [] && (writes[0].Fails? || writes[0].n <= 0)) {
      n := 0;
      assert had + value[..0] == had;
    } else if writes == [] {
      n := |value|;
      assert value[..n] == value;
    } else {
      var k := Min(writes[0].n, |value|);
      var m := WritingAppends(Append(d, inode, value[..k]), inode, value[k..], writes[1..]);
      n := k + m;
      assert value[..n] == value[..k] + value[k..][..m];
      assert had + value[..k] + value[k..][..m] == had + (value[..k] + value[k..][..m]);
    }
  }

  /** However the writes are cut up, the whole value arrives as long as each
      takes something. */
  lemma {:induction false} ShortWritesSuffice(d: Disk, inode: nat, value: seq<Byte>, writes: seq<Write>)
    requires forall i :: 0 <= i < |writes| ==> writes[i].Takes? && writes[i].n > 0
    ensures Writing(d, inode, value, writes).1
    decreases |value|
  {
    if value != [] && writes != [] {
      var k := Min(writes[0].n, |value|);
      ShortWritesSuffice(Append(d, inode, value[..k]), inode, value[k..], writes[1..]);
    }
  }

  // -------------------------------------------------------------- what loads back

  lemma {:induction false} FirstLineOf(line: seq<Byte>)
    requires NEWLINE !in line
    ensures FirstLine(line + [NEWLINE]) == line && FirstLine(line) == line
  {
    if line != [] {
      assert (line + [NEWLINE])[1..] == line[1..] + [NEWLINE];
      FirstLineOf(line[1..]);
    }
  }

  /** A stored ASCII key is the key that loads, up to the longest line allowed. */
  lemma KeyLoads(key: seq<Code>, name: string, inode: nat, d: Disk, u: Unicode)
    requires AsciiTransparent(u) && Acceptable(key, u) && Ascii(key) && |key| <= LINE_MAX
    requires name in d.names && d.names[name] == inode && inode in d.files
    requires d.files[inode] == File(key + [NEWLINE], true, true, true)
    ensures Load(d, name, u, SOUND_LOAD) == Some(key)
  {
    var line: seq<Byte> := key;
    FirstLineOf(line);
    var bytes := d.files[inode].bytes;
    assert bytes[..Min(|bytes|, Min(LINE_MAX + 1, LINE_MAX + 1))] == bytes;
    assert u.decode(line) == Some(line);
  }

  lemma {:induction false} FirstLineIs(line: seq<Byte>, read: seq<Byte>)
    requires NEWLINE !in line && (line == read || line + [NEWLINE] <= read)
    ensures FirstLine(read) == line
  {
    if line != [] {
      assert read[0] == line[0];
      FirstLineIs(line[1..], read[1..]);
    }
  }

  predicate White(c: Code, u: Unicode) {
    c in {9, 10, 11, 12, 13, 28, 29, 30, 31, 32} || (c >= 128 && u.space(c))
  }

  predicate AllWhite(s: seq<Code>, u: Unicode) {
    forall i :: 0 <= i < |s| ==> White(s[i], u)
  }

  predicate NoOuterWhite(t: seq<Code>, u: Unicode) {
    t != [] ==> !White(t[0], u) && !White(t[|t| - 1], u)
  }

  predicate TrimmedAt(s: seq<Code>, t: seq<Code>, i: nat, j: nat, u: Unicode) {
    i <= j <= |s| && t == s[i..j] && AllWhite(s[..i], u) && AllWhite(s[j..], u) && NoOuterWhite(t, u)
  }

  /** `s` without the white space around it is `t`. */
  ghost predicate Trimmed(s: seq<Code>, t: seq<Code>, u: Unicode) {
    exists i, j :: TrimmedAt(s, t, i, j, u)
  }

  lemma {:induction false} StripLeftIs(s: seq<Code>, i: nat, u: Unicode)
    requires i <= |s| && AllWhite(s[..i], u) && (i < |s| ==> !White(s[i], u))
    ensures StripLeft(s, u) == s[i..]
  {
    if i > 0 {
      assert s[..i][0] == s[0] && s[1..][..i - 1] == s[..i][1..];
      StripLeftIs(s[1..], i - 1, u);
    } else {
      assert s[0..] == s;
    }
  }

  lemma {:induction false} StripRightIs(s: seq<Code>, j: nat, u: Unicode)
    requires j <= |s| && AllWhite(s[j..], u) && (j > 0 ==> !White(s[j - 1], u))
    ensures StripRight(s, u) == s[..j]
    decreases |s|
  {
    if j < |s| {
      var init := s[..|s| - 1];
      assert s[j..][|s| - 1 - j] == s[|s| - 1] && init[j..] == s[j..][..|s| - 1 - j];
      StripRightIs(init, j, u);
    } else {
      assert s[..j] == s;
    }
  }

  lemma {:induction false} WhiteHead(s: seq<Code>, u: Unicode) returns (i: nat)
    ensures i <= |s| && AllWhite(s[..i], u) && (i < |s| ==> !White(s[i], u))
  {
    if s == [] || !White(s[0], u) {
      i := 0;
    } else {
      i := WhiteHead(s[1..], u);
      i := i + 1;
      assert s[..i] == [s[0]] + s[1..][..i - 1];
    }
  }

  lemma {:induction false} WhiteTail(s: seq<Code>, u: Unicode) returns (j: nat)
    ensures j <= |s| && AllWhite(s[j..], u) && (j > 0 ==> !White(s[j - 1], u))
    decreases |s|
  {
    if s == [] || !White(s[|s| - 1], u) {
      j := |s|;
    } else {
      j := WhiteTail(s[..|s| - 1], u);
      assert s[j..] == s[..|s| - 1][j..] + [s[|s| - 1]];
    }
  }

  lemma StripTrims(s: seq<Code>, u: Unicode)
    ensures Trimmed(s, Strip(s, u), u)
  {
    var i := WhiteHead(s, u);
    StripLeftIs(s, i, u);
    var rest := s[i..];
    var j := WhiteTail(rest, u);
    StripRightIs(rest, j, u);
    assert s[i + j..] == rest[j..] && s[i..i + j] == rest[..j];
    assert TrimmedAt(s, rest[..j], i, i + j, u);
  }

  lemma TrimmedStrips(s: seq<Code>, t: seq<Code>, i: nat, j: nat, u: Unicode)
    requires TrimmedAt(s, t, i, j, u)
    ensures Strip(s, u) == t
  {
    if t == [] {
      assert s == s[..i] + s[j..];
      StripLeftIs(s, |s|, u);
    } else {
      assert t[0] == s[i] && t[|t| - 1] == s[j - 1];
      StripLeftIs(s, i, u);
      assert s[i..][j - i..] == s[j..] && s[i..][..j - i] == t;
      StripRightIs(s[i..], j - i, u);
    }
  }

  /** Stripping takes away exactly the white space around a text. */
  lemma StripExactly(s: seq<Code>, t: seq<Code>, u: Unicode)
    ensures Strip(s, u) == t <==> Trimmed(s, t, u)
  {
    StripTrims(s, u);
    if Trimmed(s, t, u) {
      var i, j :| TrimmedAt(s, t, i, j, u);
      TrimmedStrips(s, t, i, j, u);
    }
  }

  /** A character that a key may hold. */
  predicate Printable(c: Code, u: Unicode) {
    32 <= c && c != 127 && (c >= 128 ==> !u.formatting(c))
  }

  /** A key is acceptable exactly when it is not empty, no white space stands
      around it, and it holds no control or formatting character. */
  lemma AcceptableExactly(key: seq<Code>, u: Unicode)
    ensures Acceptable(key, u) <==> key != [] && NoOuterWhite(key, u) && forall i :: 0 <= i < |key| ==> Printable(key[i], u)
  {
    StripExactly(key, key, u);
    if NoOuterWhite(key, u) {
      assert key[0..|key|] == key;
      assert TrimmedAt(key, key, 0, |key|, u);
    }
  }

  /** A file is loaded exactly when it is a regular file of the user's own that
      nobody else may access, of at most 16384 bytes, whose first line, of at most
      4096 bytes without control characters, is UTF-8 text that is not blank. The
      key is that text without outer space. */
  lemma LoadExactly(d: Disk, name: string, u: Unicode, line: seq<Byte>, key: seq<Code>)
    requires name in d.names && d.names[name] in d.files
    requires var read := d.files[d.names[name]].bytes[..Min(|d.files[d.names[name]].bytes|, 4097)];
      NEWLINE !in line && (line == read || line + [NEWLINE] <= read)
    ensures var file := d.files[d.names[name]];
      Load(d, name, u, SOUND_LOAD) == Some(key) <==>
      && file.regular && file.mine && file.private && |file.bytes| <= 16384
      && |line| <= 4096 && (forall i :: 0 <= i < |line| ==> line[i] >= 32 && line[i] != 127)
      && u.decode(line).Some? && Trimmed(u.decode(line).value, key, u) && key != []
  {
    if u.decode(line).Some? {
      StripExactly(u.decode(line).value, key, u);
    }
    var bytes := d.files[d.names[name]].bytes;
    FirstLineIs(line, bytes[..Min(|bytes|, 4097)]);
  }

  /** And never when it is missing, or when any call fails. */
  lemma LoadNeedsFile(d: Disk, name: string, u: Unicode, f: LoadFaults)
    requires name !in d.names || d.names[name] !in d.files || f.open || f.fstat || f.read || f.close
    ensures Load(d, name, u, f).None?
  {
  }

  ghost predicate FreshInode(d: Disk, inode: nat) {
    inode !in d.files && forall n :: n in d.names ==> d.names[n] != inode
  }

  /** Whatever the writes did, the created file holds a prefix of the key's line,
      and all of it if they succeeded. */
  lemma Written(key: seq<Code>, name: string, d: Disk, s: Setting, encoded: seq<Byte>) returns (n: nat)
    requires FreshInode(d, s.inode)
    ensures var w := Writing(Create(d, name, s.inode), s.inode, encoded + [NEWLINE], s.faults.writes);
      && n <= |encoded| + 1 && (w.1 ==> n == |encoded| + 1) && (n == 0 <==> NothingTaken(s.faults.writes))
      && w.0.names == d.names[name := s.inode]
      && w.0.files == d.files[s.inode := File((encoded + [NEWLINE])[..n], true, true, true)]
  {
    var c := Create(d, name, s.inode);
    n := WritingAppends(c, s.inode, encoded + [NEWLINE], s.faults.writes);
    var w := Writing(c, s.inode, encoded + [NEWLINE], s.faults.writes);
    assert [] + (encoded + [NEWLINE])[..n] == (encoded + [NEWLINE])[..n];
    assert w.0.files == d.files[s.inode := File((encoded + [NEWLINE])[..n], true, true, true)];
  }

  // -------------------------------------------------------------------- success

  ghost predicate Idle(change: Disk -> Disk) {
    forall d: Disk :: change(d) == d
  }

  ghost predicate Alone(o: Others) {
    Idle(o.beforeLoad) && Idle(o.beforeStat) && Idle(o.beforeUnlink)
  }

  /** Nothing fails; writes may still be short. */
  predicate NothingFails(f: Faults) {
    && !f.openParent && !f.openFile && !f.fchmod && !f.fstat && !f.unsafe && !f.fsync && !f.close
    && f.load == SOUND_LOAD && !f.fsyncParent && !f.stat && !f.unlink
    && forall i :: 0 <= i < |f.writes| ==> f.writes[i].Takes? && f.writes[i].n > 0
  }

  /** When nothing fails, storing succeeds for exactly the acceptable ASCII keys
      of up to 4096 bytes; any other key leaves no file behind. */
  lemma StoreSucceeds(key: seq<Code>, name: string, d: Disk, s: Setting)
    requires AsciiTransparent(s.u) && Alone(s.others) && NothingFails(s.faults)
    requires FreshInode(d, s.inode) && name !in d.names
    ensures Store(key, name, d, s).outcome.Stored? <==> Acceptable(key, s.u) && Ascii(key) && |key| <= LINE_MAX
    ensures !Store(key, name, d, s).outcome.Stored? ==> name !in Store(key, name, d, s).disk.names
  {
    var encoded := s.u.encode(key);
    if Acceptable(key, s.u) && encoded.Some? && |encoded.value| <= LINE_MAX {
      ShortWritesSuffice(Create(d, name, s.inode), s.inode, encoded.value + [NEWLINE], s.faults.writes);
      var n := Written(key, name, d, s, encoded.value);
      var line := encoded.value + [NEWLINE];
      assert line[..n] == line;
      if Ascii(key) {
        assert encoded == Some(key);
        KeyLoads(key, name, s.inode, Writing(Create(d, name, s.inode), s.inode, line, s.faults.writes).0, s.u);
      }
    } else if Ascii(key) {
      assert encoded == Some(key);
    }
  }

  /** The writes deliver `n` bytes: each takes something until none are left. */
  predicate Delivers(writes: seq<Write>, n: nat)
    decreases n
  {
    n == 0 || writes == [] ||
    (writes[0].Takes? && writes[0].n > 0 && Delivers(writes[1..], n - Min(writes[0].n, n)))
  }

  /** No call of a load fails, and its read is not cut short before `n` bytes. */
  predicate ReadsAtLeast(f: LoadFaults, n: nat) {
    !f.open && !f.fstat && !f.read && !f.close && n <= f.readMost
  }

  lemma {:induction false} WritingDelivers(d: Disk, inode: nat, value: seq<Byte>, writes: seq<Write>)
    ensures Writing(d, inode, value, writes).1 <==> Delivers(writes, |value|)
    decreases |value|
  {
    if value != [] && writes != [] && writes[0].Takes? && writes[0].n > 0 {
      var n := Min(writes[0].n, |value|);
      WritingDelivers(Append(d, inode, value[..n]), inode, value[n..], writes[1..]);
    }
  }

  /** Whatever fails, a store with nobody interfering succeeds exactly when the
      key is acceptable ASCII of up to 4096 bytes, every byte is delivered, the
      verifying read covers the key, and every other call works; those of the
      cleanup do not matter. */
  lemma StoredExactly(key: seq<Code>, name: string, d: Disk, s: Setting)
    requires AsciiTransparent(s.u) && Alone(s.others) && FreshInode(d, s.inode) && name !in d.names
    ensures var f := s.faults;
      Store(key, name, d, s).outcome.Stored? <==>
      && Acceptable(key, s.u) && Ascii(key) && |key| <= 4096
      && !f.openParent && !f.openFile && !f.fchmod && !f.fstat && !f.unsafe
      && Delivers(f.writes, |key| + 1) && !f.fsync && !f.close
      && ReadsAtLeast(f.load, |key|)
      && !f.fsyncParent
  {
    if Ascii(key) {
      assert s.u.encode(key) == Some(key);
      if Created(key, s) && !Unidentified(s.faults) {
        FilledExactly(key, key, name, d, s);
      }
    } else {
      NotAsciiNotStored(key, name, d, s);
    }
  }

  lemma NotAsciiNotStored(key: seq<Code>, name: string, d: Disk, s: Setting)
    requires !Ascii(key)
    ensures !Store(key, name, d, s).outcome.Stored?
  {
  }

  lemma FilledExactly(key: seq<Code>, encoded: seq<Byte>, name: string, d: Disk, s: Setting)
    requires AsciiTransparent(s.u) && Alone(s.others) && FreshInode(d, s.inode)
    requires Acceptable(key, s.u) && Ascii(key) && encoded == key && |encoded| <= LINE_MAX && !Unidentified(s.faults)
    ensures var f := s.faults;
      Fill(key, encoded, name, d, Create(d, name, s.inode), s).outcome.Stored? <==>
      && Delivers(f.writes, |key| + 1) && !f.fsync && !f.close
      && ReadsAtLeast(f.load, |key|)
      && !f.fsyncParent
  {
    WrittenReads(key, encoded, name, d, s);
  }

  /** A write that succeeds leaves the whole line in the created file. */
  lemma WholeLineWritten(key: seq<Code>, name: string, d: Disk, s: Setting, encoded: seq<Byte>)
    requires FreshInode(d, s.inode)
    ensures var w := Writing(Create(d, name, s.inode), s.inode, encoded + [NEWLINE], s.faults.writes);
      w.1 ==> && name in w.0.names && w.0.names[name] == s.inode && s.inode in w.0.files
              && w.0.files[s.inode] == File(encoded + [NEWLINE], true, true, true)
  {
    var n := Written(key, name, d, s, encoded);
    var line := encoded + [NEWLINE];
    assert line[..|line|] == line;
  }

  lemma WrittenReads(key: seq<Code>, encoded: seq<Byte>, name: string, d: Disk, s: Setting)
    requires AsciiTransparent(s.u) && FreshInode(d, s.inode)
    requires Acceptable(key, s.u) && Ascii(key) && encoded == key && |encoded| <= LINE_MAX
    ensures var w := Writing(Create(d, name, s.inode), s.inode, encoded + [NEWLINE], s.faults.writes);
      && (w.1 <==> Delivers(s.faults.writes, |key| + 1))
      && (w.1 ==> (Load(w.0, name, s.u, s.faults.load) == Some(key) <==> ReadsAtLeast(s.faults.load, |key|)))
  {
    var w := Writing(Create(d, name, s.inode), s.inode, encoded + [NEWLINE], s.faults.writes);
    WritingDelivers(Create(d, name, s.inode), s.inode, encoded + [NEWLINE], s.faults.writes);
    WholeLineWritten(key, name, d, s, encoded);
    if w.1 {
      ReadAtMost(key, encoded, name, s.inode, w.0, s.u, s.faults.load);
    }
  }

  /** How a read that may be cut short sees a stored key. */
  lemma ReadAtMost(key: seq<Code>, encoded: seq<Byte>, name: string, inode: nat, d: Disk, u: Unicode, f: LoadFaults)
    requires AsciiTransparent(u) && Acceptable(key, u) && Ascii(key) && encoded == key && |encoded| <= LINE_MAX
    requires name in d.names && d.names[name] == inode && inode in d.files
    requires d.files[inode] == File(encoded + [NEWLINE], true, true, true)
    ensures Load(d, name, u, f) == Some(key) <==> ReadsAtLeast(f, |key|)
  {
    var bytes := d.files[inode].bytes;
    var most := Min(|bytes|, Min(LINE_MAX + 1, f.readMost));
    assert NEWLINE !in encoded;
    if |key| <= f.readMost {
      assert bytes[..most] == if most == |key| then encoded else encoded + [NEWLINE];
      FirstLineIs(encoded, bytes[..most]);
      assert u.decode(encoded) == Some(encoded);
    } else {
      assert bytes[..most] == encoded[..most];
      FirstLineIs(encoded[..most], bytes[..most]);
      CutNeverWhole(key, most, u);
    }
  }

  lemma CutNeverWhole(key: seq<Code>, n: nat, u: Unicode)
    requires AsciiTransparent(u) && Ascii(key) && n < |key|
    ensures var part: seq<Code> := key[..n]; Ascii(part) && KeyOf(part, u) != Some(key)
  {
    var part: seq<Byte> := key[..n];
    assert u.decode(part) == Some(part);
    StripLeftShrinks(part, u);
    StripRightPrefix(StripLeft(part, u), u);
  }

  /** A normal return means that the key loads back, whatever failed and however
      the writes were cut up, unless others swapped the file and the verifying
      read was itself cut short. */
  lemma StoredLoadsBack(key: seq<Code>, name: string, d: Disk, s: Setting)
    requires AsciiTransparent(s.u) && FreshInode(d, s.inode)
    requires Store(key, name, d, s).outcome.Stored?
    requires s.faults.load.readMost > LINE_MAX || Idle(s.others.beforeLoad)
    ensures Load(Store(key, name, d, s).disk, name, s.u, SOUND_LOAD) == Some(key)
  {
    FilledLoadsBack(key, s.u.encode(key).value, name, d, s);
  }

  lemma FilledLoadsBack(key: seq<Code>, encoded: seq<Byte>, name: string, d: Disk, s: Setting)
    requires AsciiTransparent(s.u) && FreshInode(d, s.inode)
    requires Acceptable(key, s.u) && s.u.encode(key) == Some(encoded) && |encoded| <= LINE_MAX
    requires Fill(key, encoded, name, d, Create(d, name, s.inode), s).outcome.Stored?
    requires s.faults.load.readMost > LINE_MAX || Idle(s.others.beforeLoad)
    ensures Load(Fill(key, encoded, name, d, Create(d, name, s.inode), s).disk, name, s.u, SOUND_LOAD) == Some(key)
  {
    var w := Writing(Create(d, name, s.inode), s.inode, encoded + [NEWLINE], s.faults.writes);
    FillVerified(key, encoded, name, d, s);
    if s.faults.load.readMost <= LINE_MAX {
      UnswappedLoads(key, name, d, s, encoded);
    }
  }

  /** A store that succeeds has written everything and loaded the key. */
  lemma FillVerified(key: seq<Code>, encoded: seq<Byte>, name: string, d: Disk, s: Setting)
    requires Fill(key, encoded, name, d, Create(d, name, s.inode), s).outcome.Stored?
    ensures var w := Writing(Create(d, name, s.inode), s.inode, encoded + [NEWLINE], s.faults.writes);
      var seen := s.others.beforeLoad(w.0);
      && w.1 && Ascii(key) && Fill(key, encoded, name, d, Create(d, name, s.inode), s).disk == seen
      && Load(seen, name, s.u, s.faults.load) == Some(key)
      && (s.faults.load.readMost > LINE_MAX ==> Load(seen, name, s.u, SOUND_LOAD) == Some(key))
  {
  }

  lemma UnswappedLoads(key: seq<Code>, name: string, d: Disk, s: Setting, encoded: seq<Byte>)
    requires AsciiTransparent(s.u) && FreshInode(d, s.inode)
    requires Acceptable(key, s.u) && Ascii(key) && s.u.encode(key) == Some(encoded) && |encoded| <= LINE_MAX
    ensures var w := Writing(Create(d, name, s.inode), s.inode, encoded + [NEWLINE], s.faults.writes);
      w.1 ==> Load(w.0, name, s.u, SOUND_LOAD) == Some(key)
  {
    assert s.u.encode(key) == Some(key);
    var w := Writing(Create(d, name, s.inode), s.inode, encoded + [NEWLINE], s.faults.writes);
    var n := Written(key, name, d, s, encoded);
    if w.1 {
      assert (encoded + [NEWLINE])[..n] == key + [NEWLINE];
      KeyLoads(key, name, s.inode, w.0, s.u);
    }
  }

  /** Both ways out are needed: a read cut short after one byte accepts the key
      "a" although others have put "ab" in its place, and that is what loads. */
  lemma ShortReadAcceptsSwap(u: Unicode)
    requires AsciiTransparent(u)
    ensures var r := Store([97], "key", Disk(map[], map[]), Swapped(u));
      r.outcome.Stored? && Load(r.disk, "key", u, SOUND_LOAD) == Some([97, 98])
  {
    var a: seq<Code>, ab: seq<Code> := [97], [97, 98];
    var line: seq<Byte>, longer: seq<Byte> := [97], [97, 98];
    assert u.encode(a) == Some(a) && u.decode(line) == Some(line) && u.decode(longer) == Some(longer);
    FirstLineOf(line);
    FirstLineOf(longer);
    assert longer[..1] == line && longer[..2] == longer;
    assert Strip(a, u) == a && Strip(ab, u) == ab;
    assert SwapIn(Disk(map[], map[])).files[1].bytes == longer;
  }

  const CUT_SHORT: Faults :=
    Faults(false, false, false, false, false, [], false, false, LoadFaults(false, false, false, 1, false), false, false, false)

  function SwapIn(d: Disk): Disk {
    Disk(d.names["key" := 1], d.files[1 := File([97, 98], true, true, true)])
  }

  function Swapped(u: Unicode): Setting {
    Setting(u, CUT_SHORT, Others(SwapIn, d => d, d => d), 0)
  }

  // -------------------------------------------------------------------- failure

  lemma EmptyFileNeverLoads(name: string, inode: nat, d: Disk, u: Unicode)
    requires AsciiTransparent(u) && name in d.names && d.names[name] == inode
    requires inode in d.files && d.files[inode].bytes == []
    ensures Load(d, name, u, SOUND_LOAD) == None
  {
    var none: seq<Byte> := [];
    assert u.decode(none) == Some(none);
    assert d.files[inode].bytes[..0] == none;
  }

  /** The tool gets as far as creating the file. */
  predicate Created(key: seq<Code>, s: Setting) {
    var encoded := s.u.encode(key);
    && Acceptable(key, s.u) && encoded.Some? && |encoded.value| <= LINE_MAX
    && !s.faults.openParent && !s.faults.openFile
  }

  /** It fails before it has noted which file it created. */
  predicate Unidentified(f: Faults) {
    f.fchmod || f.fstat || f.unsafe
  }

  /** Then the empty file stays, whatever others do; it never loads as a key. */
  lemma EmptyFileStays(key: seq<Code>, name: string, d: Disk, s: Setting)
    requires AsciiTransparent(s.u) && name !in d.names && Created(key, s) && Unidentified(s.faults)
    ensures var r := Store(key, name, d, s);
      && r.outcome.Refused? && r.disk == Create(d, name, s.inode) && r.unlinked.None?
      && name in r.disk.names && Load(r.disk, name, s.u, SOUND_LOAD).None?
  {
    EmptyFileNeverLoads(name, s.inode, Create(d, name, s.inode), s.u);
  }

  /** A failed store leaves a file behind exactly when it created one and then
      could not identify it or could not clean it up. */
  lemma FailureLeavesFile(key: seq<Code>, name: string, d: Disk, s: Setting)
    requires Alone(s.others) && FreshInode(d, s.inode) && name !in d.names
    requires !Store(key, name, d, s).outcome.Stored?
    ensures name in Store(key, name, d, s).disk.names <==>
            Created(key, s) && (Unidentified(s.faults) || s.faults.stat || s.faults.unlink)
  {
    if Created(key, s) {
      var n := Written(key, name, d, s, s.u.encode(key).value);
    }
  }

  /** So when the cleanup's own calls work nothing is left that loads as a key. */
  lemma FailureLeavesNoKey(key: seq<Code>, name: string, d: Disk, s: Setting)
    requires AsciiTransparent(s.u) && Alone(s.others) && FreshInode(d, s.inode) && name !in d.names
    requires !s.faults.stat && !s.faults.unlink
    requires !Store(key, name, d, s).outcome.Stored?
    ensures Load(Store(key, name, d, s).disk, name, s.u, SOUND_LOAD) == None
  {
    FailureLeavesFile(key, name, d, s);
    if Created(key, s) && Unidentified(s.faults) {
      EmptyFileStays(key, name, d, s);
    }
  }

  lemma {:induction false} StripRightPrefix(t: seq<Code>, u: Unicode)
    ensures StripRight(t, u) <= t
    ensures t != [] && !Space(t[0], u) ==> StripRight(t, u) != []
  {
    if t != [] && Space(t[|t| - 1], u) {
      StripRightPrefix(t[..|t| - 1], u);
    }
  }

  lemma {:induction false} StripLeftShrinks(t: seq<Code>, u: Unicode)
    ensures |StripLeft(t, u)| <= |t|
  {
    if t != [] && Space(t[0], u) {
      StripLeftShrinks(t[1..], u);
    }
  }

  lemma AcceptableStart(key: seq<Code>, u: Unicode)
    requires Acceptable(key, u)
    ensures !Space(key[0], u)
  {
    if Space(key[0], u) {
      StripLeftShrinks(key[1..], u);
      StripRightPrefix(StripLeft(key, u), u);
    }
  }

  lemma PartIsKey(key: seq<Code>, part: seq<Byte>, u: Unicode)
    requires AsciiTransparent(u) && Acceptable(key, u) && Ascii(key) && |key| <= LINE_MAX
    requires part != [] && part <= key
    ensures var k := KeyOf(part, u); k.Some? && k.value != [] && k.value <= key
  {
    assert u.decode(part) == Some(part);
    AcceptableStart(key, u);
    StripRightPrefix(part, u);
    assert StripLeft(part, u) == part;
  }

  /** Any non-empty part of the key's line loads as a non-empty part of the key. */
  lemma PartLoads(key: seq<Code>, n: nat, name: string, inode: nat, d: Disk, u: Unicode)
    requires AsciiTransparent(u) && Acceptable(key, u) && Ascii(key) && |key| <= LINE_MAX
    requires 0 < n <= |key| + 1 && name in d.names && d.names[name] == inode && inode in d.files
    requires d.files[inode] == File((key + [NEWLINE])[..n], true, true, true)
    ensures var loaded := Load(d, name, u, SOUND_LOAD); loaded.Some? && loaded.value != [] && loaded.value <= key
  {
    var line: seq<Byte> := key;
    var part := if n <= |line| then line[..n] else line;
    assert NEWLINE !in line;
    var bytes := d.files[inode].bytes;
    FirstLineOf(part);
    assert bytes == if n <= |line| then part else part + [NEWLINE];
    assert bytes[..Min(|bytes|, Min(LINE_MAX + 1, LINE_MAX + 1))] == bytes;
    PartIsKey(key, part, u);
  }

  /** What a failed store leaves can be loaded as a key exactly when the file was
      identified, something was written, and the cleanup's own calls failed; what
      loads then is a part of the key. */
  lemma FailureLeavesKey(key: seq<Code>, name: string, d: Disk, s: Setting)
    requires AsciiTransparent(s.u) && Alone(s.others) && FreshInode(d, s.inode) && name !in d.names
    requires Ascii(key) && !Store(key, name, d, s).outcome.Stored?
    ensures var loaded := Load(Store(key, name, d, s).disk, name, s.u, SOUND_LOAD);
      && (loaded.Some? <==>
            Created(key, s) && !Unidentified(s.faults) && (s.faults.stat || s.faults.unlink) && !NothingTaken(s.faults.writes))
      && (loaded.Some? ==> loaded.value != [] && loaded.value <= key)
  {
    FailureLeavesFile(key, name, d, s);
    if Created(key, s) {
      assert s.u.encode(key) == Some(key);
      if Unidentified(s.faults) {
        EmptyFileStays(key, name, d, s);
      } else if s.faults.stat || s.faults.unlink {
        LeftoverLoads(key, name, d, s);
      }
    }
  }

  lemma LeftoverLoads(key: seq<Code>, name: string, d: Disk, s: Setting)
    requires AsciiTransparent(s.u) && Alone(s.others) && FreshInode(d, s.inode) && name !in d.names
    requires Ascii(key) && Created(key, s) && s.u.encode(key) == Some(key)
    requires !Unidentified(s.faults) && (s.faults.stat || s.faults.unlink) && !Store(key, name, d, s).outcome.Stored?
    ensures var loaded := Load(Store(key, name, d, s).disk, name, s.u, SOUND_LOAD);
      && (loaded.Some? <==> !NothingTaken(s.faults.writes))
      && (loaded.Some? ==> loaded.value != [] && loaded.value <= key)
  {
    var n := Written(key, name, d, s, key);
    var left := Writing(Create(d, name, s.inode), s.inode, key + [NEWLINE], s.faults.writes).0;
    assert Store(key, name, d, s).disk == left;
    if n == 0 {
      EmptyFileNeverLoads(name, s.inode, left, s.u);
    } else {
      PartLoads(key, n, name, s.inode, left, s.u);
    }
  }

  /** A proper prefix of the key can be left to load. */
  lemma PrefixSurvives(u: Unicode)
    requires AsciiTransparent(u)
    ensures var r := Store([97, 98], "key", Disk(map[], map[]), HalfWritten(u));
      r.outcome.Refused? && Load(r.disk, "key", u, SOUND_LOAD) == Some([97])
  {
    var ab: seq<Code> := [97, 98];
    assert u.encode(ab) == Some(ab);
    var s := HalfWritten(u);
    var d := Disk(map[], map[]);
    var line: seq<Byte> := [97, 98, NEWLINE];
    var c := Create(d, "key", 0);
    var half := Append(c, 0, line[..1]);
    assert ab + [NEWLINE] == line;
    assert Writing(c, 0, line, s.faults.writes) == Writing(half, 0, line[1..], s.faults.writes[1..]) == (half, false);
    assert half.files[0].bytes == [97];
    OneByteLoads(half, u);
  }

  const HALF_WRITTEN: Faults :=
    Faults(false, false, false, false, false, [Takes(1), Fails], false, false, SOUND_LOAD, false, true, false)

  function HalfWritten(u: Unicode): Setting {
    Setting(u, HALF_WRITTEN, Others(d => d, d => d, d => d), 0)
  }

  lemma OneByteLoads(d: Disk, u: Unicode)
    requires AsciiTransparent(u) && "key" in d.names && d.names["key"] == 0 && 0 in d.files
    requires d.files[0] == File([97], true, true, true)
    ensures Load(d, "key", u, SOUND_LOAD) == Some([97])
  {
    var line: seq<Byte> := [97];
    FirstLineOf(line);
    assert d.files[0].bytes[..1] == line;
    assert u.decode(line) == Some(line);
    assert Strip(line, u) == line;
  }

  // ---------------------------------------------------------- what is never touched

  /** Every name that led elsewhere, and every other file, is as it was. */
  ghost predicate Preserves(c: Change, inode: nat) {
    && (forall n :: n in c.before.names && c.before.names[n] != inode ==> n in c.after.names && c.after.names[n] == c.before.names[n])
    && (forall i :: i in c.before.files && i != inode ==> i in c.after.files && c.after.files[i] == c.before.files[i])
  }

  ghost predicate AllPreserve(changes: seq<Change>, inode: nat) {
    forall i :: 0 <= i < |changes| ==> Preserves(changes[i], inode)
  }

  lemma CleanupTouches(outcome: Outcome, d: Disk, name: string, s: Setting, changes: seq<Change>)
    requires AllPreserve(changes, s.inode)
    ensures var r := Cleanup(outcome, d, name, s, changes);
      AllPreserve(r.changes, s.inode) <==> r.unlinked.None? || r.unlinked.value == s.inode
  {
    var r := Cleanup(outcome, d, name, s, changes);
    if r.unlinked.Some? {
      assert r.changes[|changes|] == Change(s.others.beforeUnlink(s.others.beforeStat(d)), r.disk);
      assert name in r.changes[|changes|].before.names && name !in r.changes[|changes|].after.names;
      assert forall i :: 0 <= i < |changes| ==> r.changes[i] == changes[i];
    }
  }

  /** The disk at the moment the cleanup starts, if it does. */
  function CleanupStart(key: seq<Code>, name: string, d: Disk, s: Setting): Option<Disk> {
    if !Created(key, s) || name in d.names || Unidentified(s.faults) then None
    else
      var w := Writing(Create(d, name, s.inode), s.inode, s.u.encode(key).value + [NEWLINE], s.faults.writes);
      if !w.1 || s.faults.fsync || s.faults.close then Some(w.0)
      else
        var seen := s.others.beforeLoad(w.0);
        if Load(seen, name, s.u, s.faults.load) == Some(key) && Ascii(key) && !s.faults.fsyncParent then None else Some(seen)
  }

  /** The name leads to the created file when the cleanup looks, and to another
      one when it unlinks. */
  predicate HitsAnother(d: Disk, name: string, s: Setting) {
    var seen := s.others.beforeStat(d);
    var now := s.others.beforeUnlink(seen);
    && !s.faults.stat && name in seen.names && seen.names[name] == s.inode
    && !s.faults.unlink && name in now.names && now.names[name] != s.inode
  }

  /** The cleanup unlinks a file that is not the tool's own exactly when others
      swap the name between its `stat` and its `unlink`. */
  lemma UnlinksAnother(key: seq<Code>, name: string, d: Disk, s: Setting)
    ensures var r := Store(key, name, d, s); var start := CleanupStart(key, name, d, s);
      r.unlinked.Some? && r.unlinked.value != s.inode <==> start.Some? && HitsAnother(start.value, name, s)
  {
  }

  /** A path that exists is refused with nothing changed. Otherwise nothing but
      the file the tool created is ever touched, exactly unless others swap the
      name between the cleanup's `stat` and its `unlink`. */
  lemma OnlyItsOwnFile(key: seq<Code>, name: string, d: Disk, s: Setting)
    requires FreshInode(d, s.inode)
    ensures var r := Store(key, name, d, s); var start := CleanupStart(key, name, d, s);
      && (name in d.names ==> r == Result(Refused, d, [], None))
      && (AllPreserve(r.changes, s.inode) <==> !(start.Some? && HitsAnother(start.value, name, s)))
  {
    UnlinksAnother(key, name, d, s);
    var encoded := s.u.encode(key);
    if Acceptable(key, s.u) && encoded.Some? && name !in d.names {
      FillTouches(key, encoded.value, name, d, s);
    }
  }

  lemma FillTouches(key: seq<Code>, encoded: seq<Byte>, name: string, d: Disk, s: Setting)
    requires FreshInode(d, s.inode) && name !in d.names
    ensures var r := Fill(key, encoded, name, d, Create(d, name, s.inode), s);
      AllPreserve(r.changes, s.inode) <==> r.unlinked.None? || r.unlinked.value == s.inode
  {
    var n := Written(key, name, d, s, encoded);
    var c := Create(d, name, s.inode);
    var w := Writing(c, s.inode, encoded + [NEWLINE], s.faults.writes);
    var all := [Change(d, c)] + [Change(c, w.0)];
    assert AllPreserve([Change(d, c)], s.inode);
    assert AllPreserve(all, s.inode);
    CleanupTouches(Refused, w.0, name, s, all);
    VerifyTouches(key, name, s.others.beforeLoad(w.0), s, all);
  }

  lemma VerifyTouches(key: seq<Code>, name: string, d: Disk, s: Setting, changes: seq<Change>)
    requires AllPreserve(changes, s.inode)
    ensures var r := Verify(key, name, d, s, changes);
      AllPreserve(r.changes, s.inode) <==> r.unlinked.None? || r.unlinked.value == s.inode
  {
    CleanupTouches(Refused, d, name, s, changes);
    CleanupTouches(Crashed, d, name, s, changes);
  }

  /** The check before `unlink` does not close the window between the two calls. */
  lemma SubstituteUnlinked(u: Unicode)
    requires AsciiTransparent(u)
    ensures var r := Store([97], "key", Disk(map[], map[]), Raced(u)); r.unlinked == Some(1)
  {
    var a: seq<Code> := [97];
    assert u.encode(a) == Some(a);
    assert Strip(a, u) == a;
    var c := Create(Disk(map[], map[]), "key", 0);
    assert Writing(c, 0, a + [NEWLINE], [Fails]) == (c, false);
  }

  const RACED: Faults :=
    Faults(false, false, false, false, false, [Fails], false, false, SOUND_LOAD, false, false, false)

  function Raced(u: Unicode): Setting {
    Setting(u, RACED, Others(d => d, d => d, d => Create(d, "key", 1)), 0)
  }
}
