/** Adding a member to a `{Capability.A, Capability.B}` literal
    (scripts/lib/code_templates.py). */
module CapabilitySet {
  import opened Options
  import opened Text

  const CAPABILITY: string := "Capability."

  function Word(s: string): (w: string)
    ensures w <= s && (forall c :: c in w ==> WordChar(c)) && (|w| < |s| ==> !WordChar(s[|w|]))
  {
    if s != [] && WordChar(s[0]) then [s[0]] + Word(s[1..]) else []
  }

  function BlankRun(s: string): (w: string)
    ensures w <= s && Blanks(w) && (|w| < |s| ==> !Space(s[|w|]))
  {
    if s != [] && Space(s[0]) then [s[0]] + BlankRun(s[1..]) else []
  }

  predicate Blanks(s: string) {
    forall i :: 0 <= i < |s| ==> Space(s[i])
  }

  /** The words after each `prefix`, found from left to right. */
  function Members(s: string, prefix: string): seq<string>
    decreases |s|
  {
    if s == [] then []
    else if prefix <= s && Word(s[|prefix|..]) != [] then
      var w := Word(s[|prefix|..]);
      [w] + Members(s[|prefix| + |w|..], prefix)
    else Members(s[1..], prefix)
  }

  /** The indentation of the first member that starts a line. */
  function MemberIndent(s: string, prefix: string): (r: Option<string>)
    ensures r.Some? ==> r.value != [] && Blanks(r.value)
    decreases |s|
  {
    if s == [] then None
    else
      var run := BlankRun(s[1..]);
      if s[0] == '\n' && run != [] && prefix <= s[1 + |run|..] then Some(run) else MemberIndent(s[1..], prefix)
  }

  /** The indentation of a closing brace that ends the text on its own line. */
  function ClosingIndent(s: string): (r: Option<string>)
    ensures r.Some? ==> Blanks(r.value)
  {
    if s == [] then None
    else
      var run := BlankRun(s[1..]);
      if s[0] == '\n' && s[1 + |run|..] == "}" then Some(run) else ClosingIndent(s[1..])
  }

  /** The members on one line, and the closing brace. */
  function OnOneLine(names: seq<string>, prefix: string): string {
    if names == [] then "}"
    else if |names| == 1 then prefix + (names[0] + "}")
    else prefix + (names[0] + (", " + OnOneLine(names[1..], prefix)))
  }

  /** From the end of a line: one member to each line, then the closing brace. */
  function OnePerLine(names: seq<string>, prefix: string, indent: string, closing: string): string {
    if names == [] then "\n" + (closing + "}")
    else "\n" + (indent + (prefix + (names[0] + ("," + OnePerLine(names[1..], prefix, indent, closing)))))
  }

  datatype Edited = Ok(text: string) | InvalidAnchor | AlreadyThere

  function Insert(anchor: string, prefix: string, name: string): Edited {
    if anchor == [] || anchor[0] != '{' || anchor[|anchor| - 1] != '}' then InvalidAnchor
    else if name in Members(anchor, prefix) then AlreadyThere
    else
      var names := Members(anchor, prefix) + [name];
      if '\n' in anchor then
        match (MemberIndent(anchor, prefix), ClosingIndent(anchor))
        case (Some(member), Some(closing)) => Ok("{" + OnePerLine(names, prefix, member, closing))
        case _ => InvalidAnchor
      else Ok("{" + OnOneLine(names, prefix))
  }

  function InsertIntoCapabilitySet(anchor: string, name: string): Edited {
    Insert(anchor, CAPABILITY, name)
  }

  // -------------------------------------------------------------- reading it back

  predicate IsWord(name: string) {
    name != [] && forall c :: c in name ==> WordChar(c)
  }

  ghost predicate Words(names: seq<string>) {
    forall n :: n in names ==> IsWord(n)
  }

  lemma {:induction false} WordOf(name: string, rest: string)
    requires (forall c :: c in name ==> WordChar(c)) && (rest == [] || !WordChar(rest[0]))
    ensures Word(name + rest) == name
  {
    if name == [] {
      assert name + rest == rest;
    } else {
      assert (name + rest)[1..] == name[1..] + rest;
      WordOf(name[1..], rest);
    }
  }

  lemma {:induction false} BlankRunOf(run: string, rest: string)
    requires Blanks(run) && (rest == [] || !Space(rest[0]))
    ensures BlankRun(run + rest) == run
  {
    if run == [] {
      assert run + rest == rest;
    } else {
      assert (run + rest)[1..] == run[1..] + rest;
      BlankRunOf(run[1..], rest);
    }
  }

  /** No member starts where the prefix's first character does not occur. */
  lemma {:induction false} MembersSkip(front: string, rest: string, prefix: string)
    requires prefix != [] && prefix[0] !in front
    ensures Members(front + rest, prefix) == Members(rest, prefix)
  {
    if front == [] {
      assert front + rest == rest;
    } else {
      var s := front + rest;
      assert s[1..] == front[1..] + rest;
      assert s[0] == front[0];
      assert !(prefix <= s);
      MembersSkip(front[1..], rest, prefix);
    }
  }

  lemma MembersTake(name: string, rest: string, prefix: string)
    requires IsWord(name) && (rest == [] || !WordChar(rest[0]))
    ensures Members(prefix + (name + rest), prefix) == [name] + Members(rest, prefix)
  {
    var s := prefix + (name + rest);
    assert s[|prefix|..] == name + rest;
    WordOf(name, rest);
    assert s[|prefix| + |name|..] == rest;
  }

  /** A prefix that no separator can start, blank or not. */
  predicate Distinctive(prefix: string) {
    prefix != [] && WordChar(prefix[0])
  }

  lemma {:induction false} MembersOnOneLine(names: seq<string>, prefix: string)
    requires Words(names) && Distinctive(prefix)
    ensures Members(OnOneLine(names, prefix), prefix) == names
  {
    MembersSkip("}", "", prefix);
    assert "}" + "" == "}";
    if names != [] {
      assert names[0] in names;
      if |names| == 1 {
        MembersTake(names[0], "}", prefix);
      } else {
        var rest := OnOneLine(names[1..], prefix);
        MembersTake(names[0], ", " + rest, prefix);
        MembersSkip(", ", rest, prefix);
        MembersOnOneLine(names[1..], prefix);
      }
    }
  }

  lemma NotInBlanks(prefix: string, blanks: string)
    requires Distinctive(prefix) && Blanks(blanks)
    ensures prefix[0] !in blanks && !Space(prefix[0])
  {
  }

  lemma ClosingHasNone(closing: string, prefix: string)
    requires Blanks(closing) && Distinctive(prefix)
    ensures Members("\n" + (closing + "}"), prefix) == []
  {
    var s := "\n" + (closing + "}");
    MembersSkip(s, "", prefix);
    assert s + "" == s;
  }

  lemma RowHasOne(indent: string, name: string, rest: string, prefix: string)
    requires Blanks(indent) && IsWord(name) && Distinctive(prefix)
    ensures Members("\n" + (indent + (prefix + (name + ("," + rest)))), prefix) == [name] + Members(rest, prefix)
  {
    NotInBlanks(prefix, indent);
    MembersSkip("\n", indent + (prefix + (name + ("," + rest))), prefix);
    MembersSkip(indent, prefix + (name + ("," + rest)), prefix);
    MembersTake(name, "," + rest, prefix);
    MembersSkip(",", rest, prefix);
  }

  lemma {:induction false} MembersOnePerLine(names: seq<string>, prefix: string, indent: string, closing: string)
    requires Words(names) && Distinctive(prefix) && Blanks(indent) && Blanks(closing)
    ensures Members(OnePerLine(names, prefix, indent, closing), prefix) == names
  {
    if names == [] {
      ClosingHasNone(closing, prefix);
    } else {
      assert names[0] in names;
      RowHasOne(indent, names[0], OnePerLine(names[1..], prefix, indent, closing), prefix);
      MembersOnePerLine(names[1..], prefix, indent, closing);
    }
  }

  lemma {:induction false} MembersAreWords(s: string, prefix: string)
    ensures Words(Members(s, prefix))
    decreases |s|
  {
    if s != [] {
      if prefix <= s && Word(s[|prefix|..]) != [] {
        MembersAreWords(s[|prefix| + |Word(s[|prefix|..])|..], prefix);
      } else {
        MembersAreWords(s[1..], prefix);
      }
    }
  }

  lemma ReadsBack(anchor: string, prefix: string, name: string)
    requires Distinctive(prefix) && Insert(anchor, prefix, name).Ok? && IsWord(name)
    ensures Members(Insert(anchor, prefix, name).text, prefix) == Members(anchor, prefix) + [name]
  {
    var names := Members(anchor, prefix) + [name];
    MembersAreWords(anchor, prefix);
    if '\n' in anchor {
      var member, closing := MemberIndent(anchor, prefix).value, ClosingIndent(anchor).value;
      MembersOnePerLine(names, prefix, member, closing);
      MembersSkip("{", OnePerLine(names, prefix, member, closing), prefix);
    } else {
      MembersOnOneLine(names, prefix);
      MembersSkip("{", OnOneLine(names, prefix), prefix);
    }
  }

  /** The edited literal reads back as the old members followed by the new one. */
  lemma InsertReadsBack(anchor: string, name: string)
    requires InsertIntoCapabilitySet(anchor, name).Ok? && IsWord(name)
    ensures Members(InsertIntoCapabilitySet(anchor, name).text, CAPABILITY) == Members(anchor, CAPABILITY) + [name]
  {
    ReadsBack(anchor, CAPABILITY, name);
  }

  // --------------------------------------------------------------- keeping its form

  lemma {:induction false} ClosingSkip(front: string, rest: string)
    requires '\n' !in front
    ensures ClosingIndent(front + rest) == ClosingIndent(rest)
  {
    if front == [] {
      assert front + rest == rest;
    } else {
      assert (front + rest)[1..] == front[1..] + rest;
      ClosingSkip(front[1..], rest);
    }
  }

  lemma {:induction false} ClosingSkipsIndent(indent: string, rest: string)
    requires Blanks(indent) && rest != [] && !Space(rest[0]) && rest != "}"
    ensures ClosingIndent(indent + rest) == ClosingIndent(rest)
  {
    if indent == [] {
      assert indent + rest == rest;
    } else {
      var s := indent + rest;
      assert s[1..] == indent[1..] + rest;
      BlankRunOf(indent[1..], rest);
      assert s[1 + |indent[1..]|..] == rest;
      ClosingSkipsIndent(indent[1..], rest);
    }
  }

  lemma ClosingSkipsItem(prefix: string, name: string, rest: string)
    requires IsWord(name) && '\n' !in prefix
    ensures ClosingIndent(prefix + (name + ("," + rest))) == ClosingIndent(rest)
  {
    ClosingSkip(prefix, name + ("," + rest));
    ClosingSkip(name, "," + rest);
    ClosingSkip(",", rest);
  }

  lemma ClosingSkipsBlanks(c: char, indent: string, item: string)
    requires Blanks(indent) && item != [] && !Space(item[0]) && item != "}"
    ensures ClosingIndent([c] + (indent + item)) == ClosingIndent(item)
  {
    var s := [c] + (indent + item);
    assert s[1..] == indent + item;
    BlankRunOf(indent, item);
    assert s[1 + |indent|..] == item;
    ClosingSkipsIndent(indent, item);
  }

  lemma ClosingSkipsRow(indent: string, prefix: string, name: string, rest: string)
    requires Blanks(indent) && IsWord(name) && Distinctive(prefix) && '\n' !in prefix
    ensures ClosingIndent("\n" + (indent + (prefix + (name + ("," + rest))))) == ClosingIndent(rest)
  {
    var item := prefix + (name + ("," + rest));
    NotInBlanks(prefix, "");
    assert item[0] == prefix[0];
    ClosingSkipsBlanks('\n', indent, item);
    ClosingSkipsItem(prefix, name, rest);
  }

  lemma {:induction false} ClosingOf(names: seq<string>, prefix: string, indent: string, closing: string)
    requires Words(names) && Blanks(indent) && Blanks(closing) && Distinctive(prefix) && '\n' !in prefix
    ensures ClosingIndent(OnePerLine(names, prefix, indent, closing)) == Some(closing)
  {
    if names == [] {
      var s := "\n" + (closing + "}");
      assert s[1..] == closing + "}";
      BlankRunOf(closing, "}");
      assert s[1 + |closing|..] == "}";
    } else {
      assert names[0] in names;
      ClosingSkipsRow(indent, prefix, names[0], OnePerLine(names[1..], prefix, indent, closing));
      ClosingOf(names[1..], prefix, indent, closing);
    }
  }

  lemma IndentOf(indent: string, prefix: string, rest: string)
    requires indent != [] && Blanks(indent) && Distinctive(prefix)
    ensures MemberIndent("{" + ("\n" + (indent + (prefix + rest))), prefix) == Some(indent)
  {
    var item := prefix + rest;
    var line := "\n" + (indent + item);
    assert line[1..] == indent + item;
    assert item[0] == prefix[0];
    BlankRunOf(indent, item);
    assert line[1 + |indent|..] == item;
    assert ("{" + line)[1..] == line;
  }

  lemma LayoutOf(names: seq<string>, prefix: string, member: string, closing: string)
    requires names != [] && Words(names) && Distinctive(prefix) && '\n' !in prefix
    requires member != [] && Blanks(member) && Blanks(closing)
    ensures var text := "{" + OnePerLine(names, prefix, member, closing);
      MemberIndent(text, prefix) == Some(member) && ClosingIndent(text) == Some(closing)
  {
    IndentOf(member, prefix, names[0] + ("," + OnePerLine(names[1..], prefix, member, closing)));
    ClosingOf(names, prefix, member, closing);
    ClosingSkip("{", OnePerLine(names, prefix, member, closing));
  }

  lemma {:induction false} Ends(names: seq<string>, prefix: string, indent: string, closing: string)
    ensures var a, b := OnOneLine(names, prefix), OnePerLine(names, prefix, indent, closing);
      && a != [] && a[|a| - 1] == '}' && b != [] && b[0] == '\n' && b[|b| - 1] == '}'
  {
    if names != [] {
      Ends(names[1..], prefix, indent, closing);
    }
  }

  lemma EditedForm(anchor: string, prefix: string, name: string)
    requires Distinctive(prefix) && '\n' !in prefix && Insert(anchor, prefix, name).Ok? && IsWord(name)
    ensures var text := Insert(anchor, prefix, name).text;
      && |text| >= 2 && text[0] == '{' && text[|text| - 1] == '}' && ('\n' in text <==> '\n' in anchor)
      && ('\n' in anchor ==> MemberIndent(text, prefix) == MemberIndent(anchor, prefix) && ClosingIndent(text) == ClosingIndent(anchor))
  {
    var text := Insert(anchor, prefix, name).text;
    var names := Members(anchor, prefix) + [name];
    MembersAreWords(anchor, prefix);
    if '\n' in anchor {
      var member, closing := MemberIndent(anchor, prefix).value, ClosingIndent(anchor).value;
      Ends(names, prefix, member, closing);
      LayoutOf(names, prefix, member, closing);
      assert text[1] == '\n';
    } else {
      Ends(names, prefix, "", "");
      SingleLine(names, prefix);
    }
  }

  /** The edited literal keeps its layout, so it can be edited again: the same
      name is refused and any other is accepted. */
  lemma InsertAgain(anchor: string, prefix: string, name: string, next: string)
    requires Distinctive(prefix) && '\n' !in prefix && Insert(anchor, prefix, name).Ok? && IsWord(name)
    ensures var text := Insert(anchor, prefix, name).text;
      && ('\n' in anchor ==> MemberIndent(text, prefix) == MemberIndent(anchor, prefix) && ClosingIndent(text) == ClosingIndent(anchor))
      && Insert(text, prefix, name) == AlreadyThere
      && (Insert(text, prefix, next).Ok? <==> next !in Members(anchor, prefix) && next != name)
  {
    var text := Insert(anchor, prefix, name).text;
    EditedForm(anchor, prefix, name);
    ReadsBack(anchor, prefix, name);
    var names := Members(text, prefix);
    assert name in names && (next in names <==> next in Members(anchor, prefix) || next == name);
  }

  lemma {:induction false} SingleLine(names: seq<string>, prefix: string)
    requires Words(names) && '\n' !in prefix
    ensures '\n' !in OnOneLine(names, prefix)
  {
    if names != [] {
      assert names[0] in names;
      SingleLine(names[1..], prefix);
    }
  }

  // ----------------------------------------------------------- what is accepted

  /** After the newline at `i` comes white space `r`, then a member. */
  predicate MemberLine(s: string, i: nat, r: string) {
    && i + 1 + |r| <= |s| && s[i] == '\n' && s[i + 1..i + 1 + |r|] == r && r != [] && Blanks(r)
    && "Capability." <= s[i + 1 + |r|..]
  }

  /** After the newline at `i` come white space `r` and a last brace. */
  predicate ClosingLine(s: string, i: nat, r: string) {
    i < |s| && s[i] == '\n' && s[i + 1..] == r + "}" && Blanks(r)
  }

  ghost predicate FirstMemberLine(s: string, i: nat, r: string) {
    MemberLine(s, i, r) && forall j: nat, q :: j < i ==> !MemberLine(s, j, q)
  }

  ghost predicate FirstClosingLine(s: string, i: nat, r: string) {
    ClosingLine(s, i, r) && forall j: nat, q :: j < i ==> !ClosingLine(s, j, q)
  }

  lemma MemberLineNow(s: string, r: string)
    requires s != []
    ensures var run := BlankRun(s[1..]);
      MemberLine(s, 0, r) <==> r == run && s[0] == '\n' && run != [] && CAPABILITY <= s[1 + |run|..]
  {
    assert CAPABILITY[0] == 'C' && !Space('C');
    if MemberLine(s, 0, r) {
      var after := s[1 + |r|..];
      assert after[0] == 'C';
      BlankRunOf(r, after);
      assert s[1..] == r + after;
    }
  }

  lemma MemberLineLater(s: string, i: nat, r: string)
    requires s != []
    ensures MemberLine(s, i + 1, r) <==> MemberLine(s[1..], i, r)
  {
    if i + 2 + |r| <= |s| {
      assert s[1..][i + 1..i + 1 + |r|] == s[i + 2..i + 2 + |r|];
      assert s[1..][i + 1 + |r|..] == s[i + 2 + |r|..];
    }
  }

  lemma {:induction false} MemberIndentIs(s: string, i: nat, r: string)
    requires FirstMemberLine(s, i, r)
    ensures MemberIndent(s, CAPABILITY) == Some(r)
    decreases |s|
  {
    MemberLineNow(s, r);
    if i > 0 {
      MemberLineNow(s, BlankRun(s[1..]));
      assert !MemberLine(s, 0, BlankRun(s[1..]));
      MemberLineLater(s, i - 1, r);
      forall j: nat, q | j < i - 1 ensures !MemberLine(s[1..], j, q) {
        MemberLineLater(s, j, q);
      }
      MemberIndentIs(s[1..], i - 1, r);
    }
  }

  lemma {:induction false} MemberLineFound(s: string) returns (i: nat)
    requires MemberIndent(s, CAPABILITY).Some?
    ensures FirstMemberLine(s, i, MemberIndent(s, CAPABILITY).value)
    decreases |s|
  {
    var run := BlankRun(s[1..]);
    MemberLineNow(s, run);
    if MemberLine(s, 0, run) {
      i := 0;
    } else {
      i := MemberLineFound(s[1..]);
      MemberLineLater(s, i, MemberIndent(s, CAPABILITY).value);
      forall j: nat, q | j < i + 1 ensures !MemberLine(s, j, q) {
        if j == 0 {
          MemberLineNow(s, q);
        } else {
          MemberLineLater(s, j - 1, q);
        }
      }
      i := i + 1;
    }
  }

  lemma ClosingLineNow(s: string, r: string)
    requires s != []
    ensures var run := BlankRun(s[1..]); ClosingLine(s, 0, r) <==> r == run && s[0] == '\n' && s[1 + |run|..] == "}"
  {
    var run := BlankRun(s[1..]);
    assert s[1..] == run + s[1 + |run|..];
    if ClosingLine(s, 0, r) {
      BlankRunOf(r, "}");
      assert s[1 + |r|..] == "}";
    }
  }

  lemma ClosingLineLater(s: string, i: nat, r: string)
    requires s != []
    ensures ClosingLine(s, i + 1, r) <==> ClosingLine(s[1..], i, r)
  {
    if i + 1 < |s| {
      assert s[1..][i + 1..] == s[i + 2..];
    }
  }

  lemma {:induction false} ClosingIndentIs(s: string, i: nat, r: string)
    requires FirstClosingLine(s, i, r)
    ensures ClosingIndent(s) == Some(r)
    decreases |s|
  {
    ClosingLineNow(s, r);
    if i > 0 {
      ClosingLineNow(s, BlankRun(s[1..]));
      assert !ClosingLine(s, 0, BlankRun(s[1..]));
      ClosingLineLater(s, i - 1, r);
      forall j: nat, q | j < i - 1 ensures !ClosingLine(s[1..], j, q) {
        ClosingLineLater(s, j, q);
      }
      ClosingIndentIs(s[1..], i - 1, r);
    }
  }

  lemma {:induction false} ClosingLineFound(s: string) returns (i: nat)
    requires ClosingIndent(s).Some?
    ensures FirstClosingLine(s, i, ClosingIndent(s).value)
    decreases |s|
  {
    var run := BlankRun(s[1..]);
    ClosingLineNow(s, run);
    if ClosingLine(s, 0, run) {
      i := 0;
    } else {
      i := ClosingLineFound(s[1..]);
      ClosingLineLater(s, i, ClosingIndent(s).value);
      forall j: nat, q | j < i + 1 ensures !ClosingLine(s, j, q) {
        if j == 0 {
          ClosingLineNow(s, q);
        } else {
          ClosingLineLater(s, j - 1, q);
        }
      }
      i := i + 1;
    }
  }

  /** The two indentations are those of the first line that starts with a member
      and of the first from which only the brace is left. */
  lemma IndentsExactly(s: string, r: string)
    ensures MemberIndent(s, CAPABILITY) == Some(r) <==> exists i :: FirstMemberLine(s, i, r)
    ensures ClosingIndent(s) == Some(r) <==> exists i :: FirstClosingLine(s, i, r)
  {
    if MemberIndent(s, CAPABILITY) == Some(r) {
      var i := MemberLineFound(s);
    }
    if i :| FirstMemberLine(s, i, r) {
      MemberIndentIs(s, i, r);
    }
    if ClosingIndent(s) == Some(r) {
      var i := ClosingLineFound(s);
    }
    if i :| FirstClosingLine(s, i, r) {
      ClosingIndentIs(s, i, r);
    }
  }

  predicate Braced(s: string) {
    "{" <= s && s[|s| - 1] == '}'
  }

  /** Both indentations can be told. */
  ghost predicate LaidOut(s: string) {
    (exists i, r :: FirstMemberLine(s, i, r)) && exists i, r :: FirstClosingLine(s, i, r)
  }

  /** An edit is refused as a repetition exactly when the braces hold the name, and
      otherwise accepted exactly when the text has braces and, on several lines,
      its indentations can be told. */
  lemma AcceptedExactly(anchor: string, name: string)
    ensures var r := InsertIntoCapabilitySet(anchor, name);
      && (r.AlreadyThere? <==> Braced(anchor) && name in Members(anchor, CAPABILITY))
      && (r.Ok? <==> Braced(anchor) && name !in Members(anchor, CAPABILITY) && ('\n' in anchor ==> LaidOut(anchor)))
  {
    if MemberIndent(anchor, CAPABILITY).Some? {
      var i := MemberLineFound(anchor);
    }
    if ClosingIndent(anchor).Some? {
      var i := ClosingLineFound(anchor);
    }
    if LaidOut(anchor) {
      var i, r :| FirstMemberLine(anchor, i, r);
      MemberIndentIs(anchor, i, r);
      var j, q :| FirstClosingLine(anchor, j, q);
      ClosingIndentIs(anchor, j, q);
    }
  }
}
