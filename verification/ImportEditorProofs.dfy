/** What the import editor guarantees. */
module ImportEditorProofs {
  import opened Options
  import opened Ordering
  import opened Text
  import opened ImportEditor

  // ------------------------------------------------------------ names round-trip

  /** Comma-free and without outer space. */
  predicate Tidy(name: string) {
    ',' !in name && Trim(name) == name
  }

  lemma {:induction false} SplitParts(s: string)
    ensures forall i :: 0 <= i < |SplitOn(s, ',')| ==> ',' !in SplitOn(s, ',')[i]
  {
    if s != [] {
      SplitParts(s[1..]);
    }
  }

  lemma TrimTwice(s: string)
    ensures Trim(Trim(s)) == Trim(s)
  {
  }

  ghost predicate TidyNames(names: seq<string>) {
    names != [] && forall n :: n in names ==> Tidy(n)
  }

  lemma NamesTidy(rest: string)
    ensures TidyNames(Names(rest))
  {
    SplitParts(rest);
    forall n | n in Names(rest) ensures Tidy(n) {
      var i :| 0 <= i < |Names(rest)| && Names(rest)[i] == n;
      TrimTwice(SplitOn(rest, ',')[i]);
    }
  }

  lemma {:induction false} SplitHead(a: string, b: string)
    requires ',' !in a
    ensures SplitOn(a + "," + b, ',') == [a] + SplitOn(b, ',')
    ensures SplitOn(a, ',') == [a]
  {
    if a == [] {
      assert a + "," + b == "," + b;
      assert ("," + b)[1..] == b;
    } else {
      assert (a + "," + b)[1..] == a[1..] + "," + b;
      SplitHead(a[1..], b);
      assert [a[0]] + a[1..] == a;
    }
  }

  lemma SplitSpace(rest: string)
    ensures var parts := SplitOn(rest, ','); SplitOn(" " + rest, ',') == [" " + parts[0]] + parts[1..]
  {
    assert (" " + rest)[1..] == rest;
  }

  lemma TrimSpace(s: string)
    ensures Trim(" " + s) == Trim(s)
  {
    assert (" " + s)[1..] == s;
  }

  lemma TrimAllCons(a: string, parts: seq<string>)
    ensures TrimAll([a] + parts) == [Trim(a)] + TrimAll(parts)
  {
  }

  lemma NamesAfterSpace(rest: string)
    ensures Names(" " + rest) == Names(rest)
  {
    var parts := SplitOn(rest, ',');
    SplitSpace(rest);
    TrimSpace(parts[0]);
    TrimAllCons(" " + parts[0], parts[1..]);
    TrimAllCons(parts[0], parts[1..]);
    assert [parts[0]] + parts[1..] == parts;
  }

  lemma NamesOfPair(a: string, rest: string)
    requires Tidy(a)
    ensures Names(a + ", " + rest) == [a] + Names(rest)
  {
    var after := " " + rest;
    assert a + ", " + rest == a + "," + after;
    SplitHead(a, after);
    TrimAllCons(a, SplitOn(after, ','));
    NamesAfterSpace(rest);
  }

  /** A rendered name list parses back to itself. */
  lemma {:induction false} NamesOfJoin(names: seq<string>)
    requires TidyNames(names)
    ensures Names(Join(names)) == names
  {
    assert names[0] in names;
    if |names| == 1 {
      SplitHead(names[0], "");
    } else {
      NamesOfPair(names[0], Join(names[1..]));
      NamesOfJoin(names[1..]);
    }
  }

  // ----------------------------------------------------------------- dict algebra

  lemma {:induction false} LookupPut(t: Table, k: string, names: seq<string>, j: string)
    ensures Lookup(Put(t, k, names), j) == if j == k then Some(names) else Lookup(t, j)
  {
    if t != [] && t[0].0 != k {
      LookupPut(t[1..], k, names, j);
    }
  }

  lemma {:induction false} PutKeys(t: Table, k: string, names: seq<string>)
    requires DistinctKeys(t, Key)
    ensures DistinctKeys(Put(t, k, names), Key)
    ensures forall e :: e in Put(t, k, names) ==> e == (k, names) || e in t
  {
    if t != [] {
      if t[0].0 == k {
        assert forall i :: 0 < i < |t| ==> ([(k, names)] + t[1..])[i] == t[i];
      } else {
        PutKeys(t[1..], k, names);
        var rest := Put(t[1..], k, names);
        forall i | 0 <= i < |rest| ensures Key(rest[i]) != Key(t[0]) {
          assert rest[i] in rest;
          if rest[i] != (k, names) {
            var n :| 0 <= n < |t[1..]| && t[1..][n] == rest[i];
            assert Key(t[0]) != Key(t[n + 1]);
          }
        }
      }
    }
  }

  lemma {:induction false} LookupMembers(t: Table, k: string)
    requires DistinctKeys(t, Key)
    ensures Lookup(t, k).Some? ==> (k, Lookup(t, k).value) in t
    ensures forall e :: e in t && e.0 == k ==> Lookup(t, k) == Some(e.1)
  {
    if t != [] {
      LookupMembers(t[1..], k);
      forall e | e in t && e.0 == k ensures Lookup(t, k) == Some(e.1) {
        if e != t[0] {
          assert e in t[1..];
          var n :| 0 <= n < |t[1..]| && t[1..][n] == e;
          assert Key(t[0]) != Key(t[n + 1]);
        }
      }
    }
  }

  lemma LookupSorted(t: Table, k: string)
    requires DistinctKeys(t, Key)
    ensures DistinctKeys(Sort(t, Key), Key) && Lookup(Sort(t, Key), k) == Lookup(t, k)
  {
    var s := Sort(t, Key);
    SortDistinct(t, Key);
    LookupMembers(t, k);
    LookupMembers(s, k);
    forall e ensures e in s <==> e in t {
      SameMembers(s, t, e);
    }
  }

  ghost predicate SameLookups(a: Table, b: Table) {
    forall k :: Lookup(a, k) == Lookup(b, k)
  }

  lemma {:induction false} AtMostOnce(t: Table, e: (string, seq<string>))
    requires DistinctKeys(t, Key)
    ensures multiset(t)[e] == if e in t then 1 else 0
  {
    if t != [] {
      assert t == [t[0]] + t[1..];
      AtMostOnce(t[1..], e);
      forall n | 0 <= n < |t[1..]| ensures t[1..][n] != t[0] {
        assert Key(t[0]) != Key(t[n + 1]);
      }
    }
  }

  /** What a dict says determines how it is written out. */
  lemma SortedByLookups(a: Table, b: Table)
    requires DistinctKeys(a, Key) && DistinctKeys(b, Key) && SameLookups(a, b)
    ensures Sort(a, Key) == Sort(b, Key)
  {
    forall e ensures multiset(a)[e] == multiset(b)[e] {
      assert Lookup(a, e.0) == Lookup(b, e.0);
      LookupMembers(a, e.0);
      LookupMembers(b, e.0);
      AtMostOnce(a, e);
      AtMostOnce(b, e);
    }
    assert multiset(a) == multiset(b);
    forall x, y | x in a && y in a && Key(x) == Key(y) ensures x == y {
      LookupMembers(a, x.0);
    }
    SortPermuted(a, b, Key);
  }

  // ----------------------------------------------------------- reading it back

  ghost predicate AllTidy(t: Table) {
    forall e :: e in t ==> TidyNames(e.1)
  }

  lemma {:induction false} ParseKeys(block: seq<Line>)
    requires forall i :: 0 <= i < |block| ==> block[i].Import?
    ensures DistinctKeys(Parse(block), Key) && AllTidy(Parse(block))
  {
    if block != [] {
      var init, last := block[..|block| - 1], block[|block| - 1];
      ParseKeys(init);
      PutKeys(Parse(init), last.owner, Names(last.rest));
      NamesTidy(last.rest);
    }
  }

  lemma {:induction false} PutNew(t: Table, k: string, names: seq<string>)
    requires forall e :: e in t ==> e.0 != k
    ensures Put(t, k, names) == t + [(k, names)]
  {
    if t != [] {
      assert t[0] in t;
      PutNew(t[1..], k, names);
      assert t == [t[0]] + t[1..];
    }
  }

  lemma InitDistinct(t: Table)
    requires t != [] && DistinctKeys(t, Key)
    ensures DistinctKeys(t[..|t| - 1], Key) && forall e :: e in t[..|t| - 1] ==> e.0 != t[|t| - 1].0
  {
    var init := t[..|t| - 1];
    forall e | e in init ensures e.0 != t[|t| - 1].0 {
      var n :| 0 <= n < |init| && init[n] == e;
      assert Key(t[n]) != Key(t[|t| - 1]);
    }
  }

  /** A written block parses back to the dict it was written from. */
  lemma {:induction false} ParseRendered(t: Table)
    requires DistinctKeys(t, Key) && AllTidy(t)
    ensures Parse(RenderSorted(t)) == t
  {
    if t != [] {
      var init, last := t[..|t| - 1], t[|t| - 1];
      assert RenderSorted(t)[..|t| - 1] == RenderSorted(init);
      InitDistinct(t);
      ParseRendered(init);
      assert last in t;
      NamesOfJoin(last.1);
      PutNew(init, last.0, last.1);
      assert t == init + [last];
    }
  }

  lemma ParseRender(t: Table)
    requires DistinctKeys(t, Key) && AllTidy(t)
    ensures Parse(Render(t)) == Sort(t, Key)
  {
    SortDistinct(t, Key);
    forall e ensures e in Sort(t, Key) <==> e in t {
      SameMembers(Sort(t, Key), t, e);
    }
    ParseRendered(Sort(t, Key));
  }

  // ----------------------------------------------------------------- one insertion

  lemma BlockIs(lines: seq<Line>, i: nat, j: nat)
    requires i < j <= |lines| && forall k :: 0 <= k < |lines| ==> (lines[k].Import? <==> i <= k < j)
    ensures FindBlock(lines) == Found(i, j)
  {
    assert lines[i].Import?;
    var a := NextImport(lines, 0);
    assert a == i;
    var b := RunEnd(lines, i);
    assert lines[j - 1].Import?;
    assert j == |lines| || !lines[j].Import?;
    assert b == j;
    assert NextImport(lines, j) == |lines|;
  }

  lemma AddedNames(names: Option<seq<string>>, name: string)
    ensures forall n :: n in Added(names, name) <==> n == name || (names.Some? && n in names.value)
  {
    if names.Some? {
      var r := Sort(names.value + [name], Identity);
      forall n ensures n in r <==> n in names.value + [name] {
        SameMembers(r, names.value + [name], n);
      }
    }
  }

  /** The dict an accepted insertion writes out. */
  function Target(lines: seq<Line>, owner: string, name: string): Table
    requires FindBlock(lines).Found?
  {
    Put(Imports(lines), owner, Added(Lookup(Imports(lines), owner), name))
  }

  lemma TargetReadsBack(lines: seq<Line>, owner: string, name: string)
    requires FindBlock(lines).Found? && Tidy(name)
    ensures var t := Target(lines, owner, name);
      && t != [] && DistinctKeys(t, Key) && DistinctKeys(Sort(t, Key), Key)
      && Parse(Render(t)) == Sort(t, Key) && Render(t) != []
  {
    var parsed, b := Imports(lines), FindBlock(lines);
    var names := Lookup(parsed, owner);
    ParseKeys(lines[b.start..b.end]);
    LookupMembers(parsed, owner);
    AddedNames(names, name);
    PutKeys(parsed, owner, Added(names, name));
    LookupPut(parsed, owner, Added(names, name), owner);
    var t := Target(lines, owner, name);
    assert name in Added(names, name);
    ParseRender(t);
    SortDistinct(t, Key);
    assert |multiset(Sort(t, Key))| == |multiset(t)|;
  }

  function Splice(lines: seq<Line>, block: seq<Line>): seq<Line>
    requires FindBlock(lines).Found?
  {
    lines[..FindBlock(lines).start] + block + lines[FindBlock(lines).end..]
  }

  lemma Spliced(lines: seq<Line>, block: seq<Line>)
    requires FindBlock(lines).Found? && block != [] && forall k :: 0 <= k < |block| ==> block[k].Import?
    ensures var out := Splice(lines, block); var b, c := FindBlock(lines), FindBlock(out);
      && c == Found(b.start, b.start + |block|) && out[c.start..c.end] == block
      && out[..c.start] == lines[..b.start] && out[c.end..] == lines[b.end..]
  {
    var b, out := FindBlock(lines), Splice(lines, block);
    forall k | 0 <= k < |out| ensures out[k].Import? <==> b.start <= k < b.start + |block| {
      if k >= b.start + |block| {
        assert out[k] == lines[k - |block| - b.start + b.end];
      }
    }
    BlockIs(out, b.start, b.start + |block|);
  }

  lemma Accepted(lines: seq<Line>, owner: string, name: string)
    requires Accepts(lines, owner, name)
    ensures FindBlock(lines).Found? && InsertImport(lines, owner, name) == Ok(Splice(lines, Render(Target(lines, owner, name))))
  {
  }

  /** An accepted insertion leaves every line outside the block alone, and the
      block reads back as before with the one name added. */
  lemma InsertReadsBack(lines: seq<Line>, owner: string, name: string)
    requires Accepts(lines, owner, name) && Tidy(name)
    ensures var out := InsertImport(lines, owner, name).lines; var b, c := FindBlock(lines), FindBlock(out);
      && b.Found? && c.Found?
      && out[..c.start] == lines[..b.start] && out[c.end..] == lines[b.end..]
      && DistinctKeys(Imports(out), Key)
      && SameLookups(Imports(out), Target(lines, owner, name))
  {
    var t := Target(lines, owner, name);
    Accepted(lines, owner, name);
    TargetReadsBack(lines, owner, name);
    Spliced(lines, Render(t));
    assert Imports(Splice(lines, Render(t))) == Sort(t, Key);
    forall k ensures Lookup(Sort(t, Key), k) == Lookup(t, k) {
      LookupSorted(t, k);
    }
  }

  /** Adding the same name again is refused. */
  lemma InsertTwice(lines: seq<Line>, owner: string, name: string)
    requires Accepts(lines, owner, name) && Tidy(name)
    ensures InsertImport(InsertImport(lines, owner, name).lines, owner, name) == Refused(AlreadyImported)
  {
    var out := InsertImport(lines, owner, name).lines;
    InsertReadsBack(lines, owner, name);
    var names := Lookup(Imports(lines), owner);
    LookupPut(Imports(lines), owner, Added(names, name), owner);
    AddedNames(names, name);
    assert Lookup(Imports(out), owner) == Lookup(Target(lines, owner, name), owner);
  }

  // ------------------------------------------------------------------ two insertions

  lemma AddedCommutes(names: Option<seq<string>>, a: string, b: string)
    ensures Added(Some(Added(names, a)), b) == Added(Some(Added(names, b)), a)
  {
    var xs, ys := Added(names, a) + [b], Added(names, b) + [a];
    assert multiset(xs) == multiset(ys);
    SortPermuted(xs, ys, Identity);
  }

  /** What the file says about `k` after adding one name, then another. */
  lemma LookupTwice(lines: seq<Line>, m: string, a: string, n: string, b: string, k: string)
    requires Accepts(lines, m, a) && Tidy(a)
    ensures var out := InsertImport(lines, m, a).lines;
      && FindBlock(lines).Found? && FindBlock(out).Found?
      && Lookup(Target(out, n, b), k) ==
         var once := if k == m then Some(Added(Lookup(Imports(lines), m), a)) else Lookup(Imports(lines), k);
         if k == n then Some(Added(once, b)) else once
  {
    var out := InsertImport(lines, m, a).lines;
    InsertReadsBack(lines, m, a);
    LookupPut(Imports(lines), m, Added(Lookup(Imports(lines), m), a), k);
    LookupPut(Imports(out), n, Added(Lookup(Imports(out), n), b), k);
    assert Lookup(Imports(out), k) == Lookup(Target(lines, m, a), k);
  }

  /** The second name is still new once the first is in. */
  lemma SecondAccepted(lines: seq<Line>, m: string, a: string, n: string, b: string)
    requires Accepts(lines, m, a) && Accepts(lines, n, b) && (m, a) != (n, b) && Tidy(a)
    ensures var out := InsertImport(lines, m, a).lines;
      FindBlock(out).Found? && InsertImport(out, n, b) == Ok(Splice(out, Render(Target(out, n, b))))
  {
    var out := InsertImport(lines, m, a).lines;
    InsertReadsBack(lines, m, a);
    LookupPut(Imports(lines), m, Added(Lookup(Imports(lines), m), a), n);
    AddedNames(Lookup(Imports(lines), m), a);
    assert Lookup(Imports(out), n) == Lookup(Target(lines, m, a), n);
  }

  lemma TwoTargets(lines: seq<Line>, m: string, a: string, n: string, b: string)
    requires Accepts(lines, m, a) && Accepts(lines, n, b) && Tidy(a) && Tidy(b)
    ensures var x, y := InsertImport(lines, m, a).lines, InsertImport(lines, n, b).lines;
      FindBlock(x).Found? && FindBlock(y).Found? && Render(Target(x, n, b)) == Render(Target(y, m, a))
  {
    var x, y := InsertImport(lines, m, a).lines, InsertImport(lines, n, b).lines;
    InsertReadsBack(lines, m, a);
    InsertReadsBack(lines, n, b);
    TargetReadsBack(x, n, b);
    TargetReadsBack(y, m, a);
    forall k ensures Lookup(Target(x, n, b), k) == Lookup(Target(y, m, a), k) {
      LookupTwice(lines, m, a, n, b, k);
      LookupTwice(lines, n, b, m, a, k);
      AddedCommutes(Lookup(Imports(lines), m), a, b);
    }
    SortedByLookups(Target(x, n, b), Target(y, m, a));
  }

  /** Two different names that can each be added give the same text in either
      order. */
  lemma InsertionsCommute(lines: seq<Line>, m: string, a: string, n: string, b: string)
    requires Accepts(lines, m, a) && Accepts(lines, n, b) && (m, a) != (n, b) && Tidy(a) && Tidy(b)
    ensures var ab := InsertImport(InsertImport(lines, m, a).lines, n, b);
      ab.Ok? && ab == InsertImport(InsertImport(lines, n, b).lines, m, a)
  {
    InsertReadsBack(lines, m, a);
    InsertReadsBack(lines, n, b);
    SecondAccepted(lines, m, a, n, b);
    SecondAccepted(lines, n, b, m, a);
    TwoTargets(lines, m, a, n, b);
  }

  // ---------------------------------------------------------------- what is imported

  /** Some line of the file imports the name. */
  ghost predicate Imported(lines: seq<Line>, owner: string, name: string) {
    exists i :: 0 <= i < |lines| && lines[i].Import? && lines[i].owner == owner && name in Names(lines[i].rest)
  }

  /** The last line for the module imports the name. */
  ghost predicate LastImports(lines: seq<Line>, owner: string, name: string)
    requires FindBlock(lines).Found?
  {
    Lookup(Imports(lines), owner).Some? && name in Lookup(Imports(lines), owner).value
  }

  /** A dict entry comes from the last line that names its module. */
  lemma {:induction false} LookupLast(block: seq<Line>, k: string, i: nat)
    requires forall j :: 0 <= j < |block| ==> block[j].Import?
    requires i < |block| && block[i].owner == k && forall j :: i < j < |block| ==> block[j].owner != k
    ensures Lookup(Parse(block), k) == Some(Names(block[i].rest))
  {
    var init, last := block[..|block| - 1], block[|block| - 1];
    LookupPut(Parse(init), last.owner, Names(last.rest), k);
    if i < |block| - 1 {
      LookupLast(init, k, i);
    }
  }

  lemma {:induction false} LookupSome(block: seq<Line>, k: string) returns (i: nat)
    requires forall j :: 0 <= j < |block| ==> block[j].Import?
    requires Lookup(Parse(block), k).Some?
    ensures i < |block| && block[i].owner == k && Lookup(Parse(block), k) == Some(Names(block[i].rest))
  {
    var init, last := block[..|block| - 1], block[|block| - 1];
    LookupPut(Parse(init), last.owner, Names(last.rest), k);
    if last.owner == k {
      i := |block| - 1;
    } else {
      i := LookupSome(init, k);
    }
  }

  ghost predicate OwnersDistinct(block: seq<Line>) {
    && (forall i :: 0 <= i < |block| ==> block[i].Import?)
    && forall i, j :: 0 <= i < j < |block| ==> block[i].owner != block[j].owner
  }

  lemma ImportedInBlock(lines: seq<Line>, k: string, n: string)
    requires FindBlock(lines).Found?
    ensures Imported(lines, k, n) <==> Imported(lines[FindBlock(lines).start..FindBlock(lines).end], k, n)
  {
    var b := FindBlock(lines);
    var block := lines[b.start..b.end];
    if Imported(lines, k, n) {
      var i :| 0 <= i < |lines| && lines[i].Import? && lines[i].owner == k && n in Names(lines[i].rest);
      assert block[i - b.start] == lines[i];
    }
    if Imported(block, k, n) {
      var i :| 0 <= i < |block| && block[i].Import? && block[i].owner == k && n in Names(block[i].rest);
      assert lines[b.start + i] == block[i];
    }
  }

  lemma ImportedOnce(block: seq<Line>, k: string, n: string)
    requires OwnersDistinct(block)
    ensures Imported(block, k, n) <==> Lookup(Parse(block), k).Some? && n in Lookup(Parse(block), k).value
  {
    if Imported(block, k, n) {
      var i :| 0 <= i < |block| && block[i].Import? && block[i].owner == k && n in Names(block[i].rest);
      LookupLast(block, k, i);
    }
    if Lookup(Parse(block), k).Some? {
      var i := LookupSome(block, k);
    }
  }

  lemma BlockImports(lines: seq<Line>, k: string, n: string)
    requires FindBlock(lines).Found? && OwnersDistinct(lines[FindBlock(lines).start..FindBlock(lines).end])
    ensures Imported(lines, k, n) <==> LastImports(lines, k, n)
  {
    ImportedInBlock(lines, k, n);
    ImportedOnce(lines[FindBlock(lines).start..FindBlock(lines).end], k, n);
  }

  lemma OwnersOf(lines: seq<Line>, owner: string, name: string)
    requires Accepts(lines, owner, name) && Tidy(name)
    ensures var out := InsertImport(lines, owner, name).lines;
      FindBlock(out).Found? && OwnersDistinct(out[FindBlock(out).start..FindBlock(out).end])
  {
    var t := Target(lines, owner, name);
    Accepted(lines, owner, name);
    TargetReadsBack(lines, owner, name);
    Spliced(lines, Render(t));
    var block := Render(t);
    forall i, j | 0 <= i < j < |block| ensures block[i].owner != block[j].owner {
      assert Key(Sort(t, Key)[i]) != Key(Sort(t, Key)[j]);
    }
  }

  /** After an accepted insertion the file imports the new name and exactly what
      the last line for each module imported before. */
  lemma ExactlyImported(lines: seq<Line>, owner: string, name: string, k: string, n: string)
    requires Accepts(lines, owner, name) && Tidy(name)
    ensures FindBlock(lines).Found?
    ensures Imported(InsertImport(lines, owner, name).lines, k, n) <==> (k, n) == (owner, name) || LastImports(lines, k, n)
  {
    var out := InsertImport(lines, owner, name).lines;
    InsertReadsBack(lines, owner, name);
    OwnersOf(lines, owner, name);
    BlockImports(out, k, n);
    LookupPut(Imports(lines), owner, Added(Lookup(Imports(lines), owner), name), k);
    AddedNames(Lookup(Imports(lines), owner), name);
    assert Lookup(Imports(out), k) == Lookup(Target(lines, owner, name), k);
  }

  /** So nothing is lost when each module has one line. */
  lemma NothingLost(lines: seq<Line>, owner: string, name: string, k: string, n: string)
    requires Accepts(lines, owner, name) && Tidy(name)
    requires OwnersDistinct(lines[FindBlock(lines).start..FindBlock(lines).end])
    ensures Imported(InsertImport(lines, owner, name).lines, k, n) <==> (k, n) == (owner, name) || Imported(lines, k, n)
  {
    BlockImports(lines, k, n);
    ExactlyImported(lines, owner, name, k, n);
  }

  lemma OneName(a: string)
    requires Tidy(a)
    ensures Names(a) == [a]
  {
    SplitHead(a, "");
  }

  lemma TwoLines(lines: seq<Line>, m: string, b: string)
    requires |lines| == 2 && lines[0].Import? && lines[1] == Import(m, b) && lines[0].owner == m
    ensures FindBlock(lines).Found? && Lookup(Imports(lines), m) == Some(Names(b))
  {
    BlockIs(lines, 0, 2);
    assert lines[0..2] == lines;
    LookupLast(lines, m, 1);
  }

  /** And a module with two lines loses the name of the first. */
  lemma SecondLineWins(lines: seq<Line>, m: string, a: string, b: string, c: string)
    requires lines == [Import(m, a), Import(m, b)]
    requires Tidy(a) && Tidy(b) && Tidy(c) && a != b && a != c && b != c
    ensures Imported(lines, m, a)
    ensures InsertImport(lines, m, c).Ok? && !Imported(InsertImport(lines, m, c).lines, m, a)
  {
    TwoLines(lines, m, b);
    OneName(a);
    OneName(b);
    assert a in Names(lines[0].rest);
    assert InsertImport(lines, m, c).Ok?;
    ExactlyImported(lines, m, c, m, a);
  }
}
