/** Reading back a printed zero-context diff: what the parser returns for every diff, and
    exactly when that is the diff's added lines. */
module DiffRoundTrip {
  import opened Decimals
  import opened DiffParsing
  import opened Wrappers

  // ------------------------------------------------------------ hunk headers read back

  lemma {:induction false} NumberReadsBack(n: nat, rest: string)
    requires rest != "" && !IsDigit(rest[0])
    ensures TakeNumber(Numeral(n) + rest) == Some((n, rest))
  {
    DigitRunOfNumeral(n, rest);
    ValueOfNumeral(n);
  }

  lemma {:induction false} CountReadsBack(count: nat, rest: string)
    requires rest != "" && rest[0] == ' '
    ensures TakeCount(("," + Numeral(count)) + rest) == (count, rest)
    ensures TakeCount(rest) == (1, rest)
  {
    var tail := Numeral(count) + rest;
    NumberReadsBack(count, rest);
    assert ("," + Numeral(count)) + rest == "," + tail && ("," + tail)[1..] == tail;
    assert rest[0] != ',';
  }

  lemma {:induction false} StartReadsBack(start: nat, tail: string)
    requires tail != "" && !IsDigit(tail[0])
    ensures TakeRange(Numeral(start) + tail) == Some((start, TakeCount(tail).0, TakeCount(tail).1))
  {
    NumberReadsBack(start, tail);
  }

  lemma {:induction false} Associative(a: string, b: string, c: string)
    ensures (a + b) + c == a + (b + c)
  {
  }

  lemma {:induction false} RangeReadsBack(start: nat, count: nat, rest: string)
    requires rest != "" && rest[0] == ' '
    ensures TakeRange(PrintRange(start, count) + rest) == Some((start, count, rest))
  {
    var counted := "," + Numeral(count);
    CountReadsBack(count, rest);
    Associative(Numeral(start), counted, rest);
    StartReadsBack(start, if count == 1 then rest else counted + rest);
  }

  lemma {:induction false} ExpectReadsBack(prefix: string, rest: string)
    ensures Expect(prefix + rest, prefix) == Some(rest)
  {
    assert (prefix + rest)[|prefix|..] == rest;
  }

  lemma {:induction false} HunkHeaderReadsBack(hunk: Hunk)
    ensures ParseHunk(HunkHeader(hunk)) == Some((hunk.newStart, |hunk.added|))
    ensures "@@ " <= HunkHeader(hunk)
  {
    var afterNew := " @@" + hunk.context;
    var newSide := PrintRange(hunk.newStart, |hunk.added|) + afterNew;
    var afterOld := " +" + newSide;
    var oldSide := PrintRange(hunk.oldStart, |hunk.removed|) + afterOld;
    assert HunkHeader(hunk) == "@@ -" + oldSide;
    HeaderFieldsReadBack(oldSide, hunk.oldStart, |hunk.removed|, newSide, hunk.newStart, |hunk.added|, hunk.context);
    assert ("@@ -" + oldSide)[..3] == "@@ ";
  }

  lemma {:induction false} HeaderFieldsReadBack(
    oldSide: string, oldStart: nat, oldCount: nat, newSide: string, newStart: nat, newCount: nat, context: string)
    requires oldSide == PrintRange(oldStart, oldCount) + (" +" + newSide)
    requires newSide == PrintRange(newStart, newCount) + (" @@" + context)
    ensures ParseHunk("@@ -" + oldSide) == Some((newStart, newCount))
  {
    ExpectReadsBack("@@ -", oldSide);
    ExpectReadsBack(" +", newSide);
    ExpectReadsBack(" @@", context);
    assert (" +" + newSide)[0] == ' ' && (" @@" + context)[0] == ' ';
    RangeReadsBack(oldStart, oldCount, " +" + newSide);
    RangeReadsBack(newStart, newCount, " @@" + context);
  }

  // ------------------------------------------------------------ a hunk's lines

  /** A line's first character tells which of the special lines it cannot be. */
  lemma {:induction false} FirstCharacterTells(line: string)
    requires line != ""
    ensures "diff --git " <= line ==> line[0] == 'd'
    ensures "--- " <= line ==> line[0] == '-'
    ensures "+++ " <= line ==> line[0] == '+'
    ensures "@@ " <= line ==> line[0] == '@'
  {
    assert "diff --git "[0] == 'd' && "--- "[0] == '-' && "+++ "[0] == '+' && "@@ "[0] == '@';
  }

  /** A removed line that looks, once printed, like the start of a new file. */
  predicate HidesFile(hunk: Hunk) {
    LooksLikeHeader(hunk.removed)
  }

  predicate LooksLikeHeader(removed: seq<string>) {
    exists i :: 0 <= i < |removed| && "-- " <= removed[i]
  }

  /** The file lines are counted to behind added lines, each of which that looks like a `+++` header
      names one. */
  function Named(added: seq<string>, current: Option<string>, rules: PathRules): Result<Option<string>, DiffError> {
    if added == [] then Success(current)
    else if !("++ " <= added[0]) then Named(added[1..], current, rules)
    else
      var path := DiffPath(added[0][3..], rules);
      if path.Failure? then path else Named(added[1..], path.value, rules)
  }

  /** The same behind a whole hunk: none behind its removed lines if one of them hides the file,
      then what its added lines name. */
  function OwnerAfter(hunk: Hunk, current: Option<string>, rules: PathRules): Result<Option<string>, DiffError> {
    Named(hunk.added, if HidesFile(hunk) then None else current, rules)
  }

  /** The same behind all hunks of a section. */
  function Owner(hunks: seq<Hunk>, current: Option<string>, rules: PathRules): Result<Option<string>, DiffError> {
    if hunks == [] then Success(current)
    else
      var before := Owner(hunks[..|hunks| - 1], current, rules);
      if before.Failure? then before else OwnerAfter(hunks[|hunks| - 1], before.value, rules)
  }

  function WithOwner(owner: Result<Option<string>, DiffError>, state: State): Result<State, DiffError> {
    if owner.Failure? then Failure(owner.error) else Success(state.(current := owner.value))
  }

  lemma {:induction false} InertLines(lines: seq<string>, state: State, rules: PathRules)
    requires forall line :: line in lines ==> !IsSpecial(line)
    ensures ParseFrom(lines, state, rules) == Success(state)
  {
    if lines != [] {
      assert lines[0] in lines;
      InertLines(lines[1..], state, rules);
    }
  }

  lemma {:induction false} RemovedLines(lines: seq<string>, state: State, rules: PathRules)
    ensures ParseFrom(Marked('-', lines), state, rules)
         == Success(if LooksLikeHeader(lines) then state.(current := None) else state)
  {
    if lines != [] {
      var marked := Marked('-', lines);
      assert marked[1..] == Marked('-', lines[1..]);
      assert marked[0] == ['-'] + lines[0];
      MarkedLineIsSpecial('-', lines[0]);
      var next := if "-- " <= lines[0] then state.(current := None) else state;
      assert Step(state, marked[0], rules) == Success(next);
      RemovedLines(lines[1..], next, rules);
      assert LooksLikeHeader(lines) <==> "-- " <= lines[0] || LooksLikeHeader(lines[1..]) by {
        assert forall i :: 0 < i < |lines| ==> lines[i] == lines[1..][i - 1];
      }
    }
  }

  lemma {:induction false} MarkedLineIsSpecial(sign: char, line: string)
    requires sign == '-' || sign == '+'
    ensures var marked := [sign] + line;
      && !("diff --git " <= marked) && !("@@ " <= marked)
      && ("--- " <= marked <==> sign == '-' && "-- " <= line)
      && ("+++ " <= marked <==> sign == '+' && "++ " <= line)
  {
    var marked := [sign] + line;
    FirstCharacterTells(marked);
    MarkedPrefix(sign, line, "-- ");
    MarkedPrefix(sign, line, "++ ");
    assert "--- " == ['-'] + "-- " && "+++ " == ['+'] + "++ ";
  }

  lemma {:induction false} MarkedPrefix(sign: char, line: string, prefix: string)
    ensures [sign] + prefix <= [sign] + line <==> prefix <= line
  {
    if |prefix| <= |line| {
      assert ([sign] + line)[..|prefix| + 1] == [sign] + line[..|prefix|];
      assert ([sign] + prefix)[1..] == prefix && ([sign] + line[..|prefix|])[1..] == line[..|prefix|];
    }
  }

  lemma {:induction false} UnendedIsInert()
    ensures !IsSpecial(UNENDED)
  {
    assert UNENDED[0] == '\\';
    FirstCharacterTells(UNENDED);
  }

  lemma {:induction false} AddedLines(added: seq<string>, state: State, rules: PathRules)
    requires state.sawFile
    ensures ParseFrom(Marked('+', added), state, rules) == WithOwner(Named(added, state.current, rules), state)
  {
    if added != [] {
      var marked := Marked('+', added);
      assert marked[1..] == Marked('+', added[1..]);
      assert marked[0] == ['+'] + added[0];
      MarkedLineIsSpecial('+', added[0]);
      if "++ " <= added[0] {
        assert marked[0][4..] == added[0][3..];
        var path := DiffPath(added[0][3..], rules);
        if path.Success? {
          AddedLines(added[1..], state.(current := path.value), rules);
        }
      } else {
        AddedLines(added[1..], state, rules);
      }
    }
  }

  lemma {:induction false} MarkerParsed(unended: bool, state: State, rules: PathRules)
    ensures ParseFrom(if unended then [UNENDED] else [], state, rules) == Success(state)
  {
    UnendedIsInert();
    InertLines(if unended then [UNENDED] else [], state, rules);
  }

  lemma {:induction false} HunkBodyParsed(hunk: Hunk, state: State, rules: PathRules)
    requires state.sawFile
    ensures ParseFrom(HunkBody(hunk), state, rules) == WithOwner(OwnerAfter(hunk, state.current, rules), state)
  {
    var removed, added := Marked('-', hunk.removed), Marked('+', hunk.added);
    var oldMarker := if hunk.oldUnended then [UNENDED] else [];
    var newMarker := if hunk.newUnended then [UNENDED] else [];
    var hidden := if HidesFile(hunk) then state.(current := None) else state;
    RemovedLines(hunk.removed, state, rules);
    MarkerParsed(hunk.oldUnended, hidden, rules);
    AddedLines(hunk.added, hidden, rules);
    ParseAppended(removed, oldMarker, state, rules);
    ParseAppended(removed + oldMarker, added, state, rules);
    ParseAppended(removed + oldMarker + added, newMarker, state, rules);
    var named := Named(hunk.added, hidden.current, rules);
    if named.Success? {
      MarkerParsed(hunk.newUnended, hidden.(current := named.value), rules);
    }
  }

  // ------------------------------------------------------------ the lines read

  predicate Holds(changed: Changed, path: string, line: nat) {
    path in changed && line in changed[path]
  }

  predicate NoEmptyEntry(changed: Changed) {
    forall path :: path in changed ==> changed[path] != {}
  }

  /** The hunk adds this line. */
  predicate Adds(hunk: Hunk, line: nat) {
    hunk.newStart <= line < hunk.newStart + |hunk.added|
  }

  predicate AddsSomewhere(hunks: seq<Hunk>, line: nat) {
    exists j :: 0 <= j < |hunks| && Adds(hunks[j], line)
  }

  /** The hunk's lines are counted to this path. */
  predicate Owns(hunks: seq<Hunk>, current: Option<string>, rules: PathRules, j: nat, path: string)
    requires j <= |hunks|
  {
    Owner(hunks[..j], current, rules) == Success(Some(path))
  }

  /** The reader counts this line to this path. */
  predicate AddsUnder(hunks: seq<Hunk>, current: Option<string>, rules: PathRules, path: string, line: nat) {
    exists j :: 0 <= j < |hunks| && Owns(hunks, current, rules, j, path) && Adds(hunks[j], line)
  }

  /** The reader's state after a section's hunks, for every path and line. */
  ghost predicate ReadHunks(hunks: seq<Hunk>, rules: PathRules, before: State, after: State) {
    && after.sawFile && Owner(hunks, before.current, rules) == Success(after.current)
    && (NoEmptyEntry(before.changed) ==> NoEmptyEntry(after.changed))
    && forall path, line :: Holds(after.changed, path, line) <==>
         Holds(before.changed, path, line) || AddsUnder(hunks, before.current, rules, path, line)
  }

  /** The reader's state after a hunk's header. */
  ghost predicate ReadHeader(hunk: Hunk, before: State, after: State) {
    && after.sawFile && after.current == before.current
    && (NoEmptyEntry(before.changed) ==> NoEmptyEntry(after.changed))
    && forall path, line :: Holds(after.changed, path, line) <==>
         Holds(before.changed, path, line) || (before.current == Some(path) && Adds(hunk, line))
  }

  function AfterHeader(hunk: Hunk, state: State): State {
    if state.current.None? || hunk.added == [] then state
    else state.(changed := Touch(state.changed, state.current.value, LinesFrom(hunk.newStart, |hunk.added|)))
  }

  function AfterHunk(hunk: Hunk, state: State, rules: PathRules): Result<State, DiffError> {
    WithOwner(OwnerAfter(hunk, state.current, rules), AfterHeader(hunk, state))
  }

  function AfterHunks(hunks: seq<Hunk>, state: State, rules: PathRules): Result<State, DiffError> {
    if hunks == [] then Success(state)
    else
      var before := AfterHunks(hunks[..|hunks| - 1], state, rules);
      if before.Failure? then before else AfterHunk(hunks[|hunks| - 1], before.value, rules)
  }

  lemma {:induction false} HunksParsed(hunks: seq<Hunk>, state: State, rules: PathRules)
    requires state.sawFile
    ensures var after := AfterHunks(hunks, state, rules);
      ParseFrom(PrintHunks(hunks), state, rules) == after && (after.Success? ==> after.value.sawFile)
  {
    if hunks != [] {
      var rest, hunk := hunks[..|hunks| - 1], hunks[|hunks| - 1];
      HunksParsed(rest, state, rules);
      ParseAppended(PrintHunks(rest), PrintHunk(hunk), state, rules);
      var before := AfterHunks(rest, state, rules);
      if before.Success? {
        HunkParsed(hunk, before.value, rules);
      }
    }
  }

  lemma {:induction false} HunkParsed(hunk: Hunk, state: State, rules: PathRules)
    requires state.sawFile
    ensures ParseFrom(PrintHunk(hunk), state, rules) == AfterHunk(hunk, state, rules)
  {
    var lines := PrintHunk(hunk);
    HeaderStep(hunk, state, rules);
    assert lines[0] == HunkHeader(hunk) && lines[1..] == HunkBody(hunk);
    HunkBodyParsed(hunk, AfterHeader(hunk, state), rules);
  }

  lemma {:induction false} HeaderStep(hunk: Hunk, state: State, rules: PathRules)
    requires state.sawFile
    ensures Step(state, HunkHeader(hunk), rules) == Success(AfterHeader(hunk, state))
  {
    HunkHeaderReadsBack(hunk);
    HunkStep(HunkHeader(hunk), hunk.newStart, |hunk.added|, state, rules);
  }

  lemma {:induction false} HunkStep(header: string, start: nat, count: nat, state: State, rules: PathRules)
    requires "@@ " <= header && ParseHunk(header) == Some((start, count)) && state.sawFile
    ensures Step(state, header, rules) == Success(
      if state.current.None? || count == 0 then state
      else state.(changed := Touch(state.changed, state.current.value, LinesFrom(start, count))))
  {
    FirstCharacterTells(header);
  }

  lemma {:induction false} HeaderReads(hunk: Hunk, state: State)
    requires state.sawFile
    ensures ReadHeader(hunk, state, AfterHeader(hunk, state))
  {
    if hunk.added != [] {
      assert Adds(hunk, hunk.newStart) && hunk.newStart in LinesFrom(hunk.newStart, |hunk.added|);
    }
  }

  lemma {:induction false} HunksRead(hunks: seq<Hunk>, state: State, rules: PathRules)
    requires state.sawFile
    ensures var after := AfterHunks(hunks, state, rules);
      && (after.Success? <==> Owner(hunks, state.current, rules).Success?)
      && (after.Success? ==> ReadHunks(hunks, rules, state, after.value))
  {
    if hunks != [] {
      var rest, hunk := hunks[..|hunks| - 1], hunks[|hunks| - 1];
      HunksRead(rest, state, rules);
      var middle := AfterHunks(rest, state, rules);
      var after := AfterHunks(hunks, state, rules);
      if middle.Success? && after.Success? {
        HeaderReads(hunk, middle.value);
        OneMoreHunk(rest, hunk, rules, state, middle.value, AfterHeader(hunk, middle.value), after.value.current);
        assert hunks == rest + [hunk];
      }
    } else {
      assert forall path, line :: !AddsUnder(hunks, state.current, rules, path, line);
    }
  }

  lemma {:induction false} OneMoreHunk(
    hunks: seq<Hunk>, hunk: Hunk, rules: PathRules, before: State, middle: State, headed: State, owner: Option<string>)
    requires ReadHunks(hunks, rules, before, middle) && ReadHeader(hunk, middle, headed)
    requires OwnerAfter(hunk, middle.current, rules) == Success(owner)
    ensures ReadHunks(hunks + [hunk], rules, before, headed.(current := owner))
  {
    var more := hunks + [hunk];
    assert more[..|hunks|] == hunks;
    forall path, line
      ensures AddsUnder(more, before.current, rules, path, line) <==>
        AddsUnder(hunks, before.current, rules, path, line) || (middle.current == Some(path) && Adds(hunk, line))
    {
      AddsUnderOneMore(hunks, hunk, before.current, rules, path, line);
    }
  }

  lemma {:induction false} AddsUnderOneMore(
    hunks: seq<Hunk>, hunk: Hunk, current: Option<string>, rules: PathRules, path: string, line: nat)
    ensures AddsUnder(hunks + [hunk], current, rules, path, line) <==>
      AddsUnder(hunks, current, rules, path, line)
      || (Owner(hunks, current, rules) == Success(Some(path)) && Adds(hunk, line))
  {
    var more := hunks + [hunk];
    assert forall j :: 0 <= j <= |hunks| ==> more[..j] == hunks[..j];
    assert hunks[..|hunks|] == hunks;
    if AddsUnder(hunks, current, rules, path, line) {
      var j :| 0 <= j < |hunks| && Owns(hunks, current, rules, j, path) && Adds(hunks[j], line);
      assert Owns(more, current, rules, j, path) && Adds(more[j], line);
    }
    if Owner(hunks, current, rules) == Success(Some(path)) && Adds(hunk, line) {
      assert Owns(more, current, rules, |hunks|, path) && Adds(more[|hunks|], line);
    }
    if AddsUnder(more, current, rules, path, line) {
      var j :| 0 <= j < |more| && Owns(more, current, rules, j, path) && Adds(more[j], line);
      if j < |hunks| {
        assert Owns(hunks, current, rules, j, path) && Adds(hunks[j], line);
      }
    }
  }

  // ------------------------------------------------------------ sections

  /** The file a section's label names; none when the label cannot be read. */
  function Labelled(section: Section, rules: PathRules): Option<string> {
    var path := DiffPath(section.newLabel, rules);
    if path.Success? then path.value else None
  }

  predicate LabelReads(section: Section, rules: PathRules) {
    section.hunks != [] ==> DiffPath(section.newLabel, rules).Success?
  }

  /** The label of a plain path reads back, its trailing tab trimmed. */
  lemma {:induction false} PlainPathReadsBack(path: string, rules: PathRules)
    requires PlainPath(path, rules)
    ensures DiffPath("b/" + path, rules) == Success(Some(path))
    ensures DiffPath("b/" + path + "\t", rules) == Success(Some(path))
  {
    var printed := "b/" + path;
    assert printed[0] == 'b' && printed[|printed| - 1] == path[|path| - 1];
    assert Trim(printed) == printed;
    assert (printed + "\t")[0] == 'b' && (printed + "\t")[..|printed|] == printed;
    assert Trim(printed + "\t") == Trim(printed);
    assert printed[0] != "/dev/null"[0];
    assert printed[2..] == path;
  }

  /** A quoted label is what its inside is unquoted to, without the side's prefix. */
  lemma {:induction false} QuotedLabelReads(inside: string, path: string, rules: PathRules)
    requires rules.unquote(inside) == Some("b/" + path)
    ensures DiffPath("\"" + inside + "\"", rules)
         == if rules.normalise(path).Some? then Success(rules.normalise(path))
            else Failure(InvalidPath("\"" + inside + "\""))
    ensures inside == "" ==>
      DiffPath("\"", rules)
      == if rules.normalise(path).Some? then Success(rules.normalise(path)) else Failure(InvalidPath("\""))
  {
    var quoted := "\"" + inside + "\"";
    assert quoted[0] == '"' && quoted[|quoted| - 1] == '"' && quoted[0] != "/dev/null"[0];
    assert Trim(quoted) == quoted && quoted[1..|quoted| - 1] == inside;
    assert ("b/" + path)[2..] == path;
    assert "\""[0] == '"' && "\""[0] != "/dev/null"[0] && Trim("\"") == "\"";
  }

  lemma {:induction false} PlainLabelReadsBack(path: Option<string>, rules: PathRules)
    requires path.Some? ==> PlainPath(path.value, rules)
    ensures DiffPath(PlainLabel("b/", path), rules) == Success(path)
  {
    if path.Some? {
      PlainPathReadsBack(path.value, rules);
      assert "b/" + path.value + "" == "b/" + path.value;
    } else {
      var device := "/dev/null";
      assert device[0] == '/' && device[|device| - 1] == 'l';
      assert Trim(device) == device;
    }
  }

  /** The reader's state after a section, for every path and line. */
  ghost predicate ReadSection(section: Section, rules: PathRules, before: State, after: State) {
    && (NoEmptyEntry(before.changed) ==> NoEmptyEntry(after.changed))
    && forall path, line :: Holds(after.changed, path, line) <==>
         Holds(before.changed, path, line) || AddsUnder(section.hunks, Labelled(section, rules), rules, path, line)
  }

  function AfterSection(section: Section, state: State, rules: PathRules): Result<State, DiffError> {
    if section.hunks == [] then Success(state.(current := None, sawFile := false))
    else
      var path := DiffPath(section.newLabel, rules);
      if path.Failure? then Failure(path.error)
      else AfterHunks(section.hunks, State(path.value, true, state.changed), rules)
  }

  lemma {:induction false} SectionParsed(section: Section, state: State, rules: PathRules)
    requires Printable(section)
    ensures ParseFrom(PrintSection(section), state, rules) == AfterSection(section, state, rules)
  {
    var title := "diff --git " + section.title;
    var begun := state.(current := None, sawFile := false);
    assert Step(state, title, rules) == Success(begun);
    var head := [title] + section.extended;
    assert head[1..] == section.extended;
    InertLines(section.extended, begun, rules);
    var oldLine, newLine := "--- " + section.oldLabel, "+++ " + section.newLabel;
    var body := if section.hunks == [] then [] else [oldLine, newLine] + PrintHunks(section.hunks);
    assert PrintSection(section) == head + body;
    ParseAppended(head, body, state, rules);
    if section.hunks != [] {
      LabelsParsed(section, begun, rules);
      ParseAppended([oldLine, newLine], PrintHunks(section.hunks), begun, rules);
      if LabelReads(section, rules) {
        HunksParsed(section.hunks, State(Labelled(section, rules), true, state.changed), rules);
      }
    }
  }

  lemma {:induction false} LabelsParsed(section: Section, state: State, rules: PathRules)
    requires state.current.None?
    ensures var path := DiffPath(section.newLabel, rules);
      ParseFrom(["--- " + section.oldLabel, "+++ " + section.newLabel], state, rules)
      == if path.Failure? then Failure(path.error) else Success(State(path.value, true, state.changed))
  {
    var oldLine, newLine := "--- " + section.oldLabel, "+++ " + section.newLabel;
    FirstCharacterTells(oldLine);
    FirstCharacterTells(newLine);
    assert newLine[4..] == section.newLabel;
    OneLine(oldLine, state, rules);
    OneLine(newLine, state, rules);
    ParseAppended([oldLine], [newLine], state, rules);
    assert [oldLine] + [newLine] == [oldLine, newLine];
  }

  lemma {:induction false} OneLine(line: string, state: State, rules: PathRules)
    ensures ParseFrom([line], state, rules) == Step(state, line, rules)
  {
    assert [line][1..] == [];
  }

  /** A section's label, and every path its added headers name, can be read. */
  predicate SectionReads(section: Section, rules: PathRules) {
    LabelReads(section, rules) && Owner(section.hunks, Labelled(section, rules), rules).Success?
  }

  lemma {:induction false} SectionRead(section: Section, state: State, rules: PathRules)
    ensures var after := AfterSection(section, state, rules);
      && (after.Success? <==> SectionReads(section, rules))
      && (after.Success? ==> ReadSection(section, rules, state, after.value))
  {
    if section.hunks == [] {
      assert forall path, line :: !AddsUnder([], Labelled(section, rules), rules, path, line);
    } else if LabelReads(section, rules) {
      HunksRead(section.hunks, State(Labelled(section, rules), true, state.changed), rules);
    }
  }

  // ------------------------------------------------------------ the whole diff

  /** A line the diff adds to a file that survives it. */
  ghost predicate ChangedLine(sections: seq<Section>, path: string, line: nat) {
    exists i :: 0 <= i < |sections| && sections[i].newPath == Some(path) && AddsSomewhere(sections[i].hunks, line)
  }

  /** A line the reader counts to this path, whichever section adds it. */
  ghost predicate CountedLine(sections: seq<Section>, rules: PathRules, path: string, line: nat) {
    exists i :: 0 <= i < |sections| && AddsUnder(sections[i].hunks, Labelled(sections[i], rules), rules, path, line)
  }

  /** The reader's state after a whole diff, for every path and line. */
  ghost predicate ReadDiff(sections: seq<Section>, rules: PathRules, after: State) {
    && NoEmptyEntry(after.changed)
    && forall path, line :: Holds(after.changed, path, line) <==> CountedLine(sections, rules, path, line)
  }

  function AfterDiff(sections: seq<Section>, rules: PathRules): Result<State, DiffError> {
    if sections == [] then Success(Start)
    else
      var before := AfterDiff(sections[..|sections| - 1], rules);
      if before.Failure? then before else AfterSection(sections[|sections| - 1], before.value, rules)
  }

  lemma {:induction false} SectionsParsed(sections: seq<Section>, rules: PathRules)
    requires AllPrintable(sections)
    ensures ParseFrom(PrintDiff(sections), Start, rules) == AfterDiff(sections, rules)
  {
    if sections != [] {
      var rest, section := sections[..|sections| - 1], sections[|sections| - 1];
      SectionsParsed(rest, rules);
      ParseAppended(PrintDiff(rest), PrintSection(section), Start, rules);
      var before := AfterDiff(rest, rules);
      if before.Success? {
        SectionParsed(section, before.value, rules);
      }
    }
  }

  /** Every label and every path an added header names can be read. */
  ghost predicate AllOwned(sections: seq<Section>, rules: PathRules) {
    forall i :: 0 <= i < |sections| ==> SectionReads(sections[i], rules)
  }

  lemma {:induction false} SectionsRead(sections: seq<Section>, rules: PathRules)
    ensures var after := AfterDiff(sections, rules);
      && (after.Success? <==> AllOwned(sections, rules))
      && (after.Success? ==> ReadDiff(sections, rules, after.value))
  {
    if sections != [] {
      var rest, section := sections[..|sections| - 1], sections[|sections| - 1];
      assert sections == rest + [section];
      SectionsRead(rest, rules);
      OwnedOneMore(rest, section, rules);
      var before := AfterDiff(rest, rules);
      if before.Success? {
        SectionRead(section, before.value, rules);
        if AfterDiff(sections, rules).Success? {
          ReadOneMoreSection(rest, section, rules, before.value, AfterDiff(sections, rules).value);
        }
      }
    }
  }

  lemma {:induction false} OwnedOneMore(sections: seq<Section>, section: Section, rules: PathRules)
    ensures AllOwned(sections + [section], rules) <==>
      AllOwned(sections, rules) && SectionReads(section, rules)
  {
    var more := sections + [section];
    assert more[|sections|] == section && forall i :: 0 <= i < |sections| ==> more[i] == sections[i];
  }

  lemma {:induction false} ReadOneMoreSection(
    sections: seq<Section>, section: Section, rules: PathRules, middle: State, after: State)
    requires ReadDiff(sections, rules, middle) && ReadSection(section, rules, middle, after)
    ensures ReadDiff(sections + [section], rules, after)
  {
    OneMoreSection(sections, section, rules);
  }

  lemma {:induction false} OneMoreSection(sections: seq<Section>, section: Section, rules: PathRules)
    ensures forall path, line :: CountedLine(sections + [section], rules, path, line) <==>
      CountedLine(sections, rules, path, line) || AddsUnder(section.hunks, Labelled(section, rules), rules, path, line)
  {
    var more := sections + [section];
    assert more[|sections|] == section;
    forall path, line | CountedLine(sections, rules, path, line)
      ensures CountedLine(more, rules, path, line)
    {
      var i :| 0 <= i < |sections| && AddsUnder(sections[i].hunks, Labelled(sections[i], rules), rules, path, line);
      assert more[i] == sections[i];
    }
  }

  /** For every printed diff, whether reading it back succeeds, and what it then returns. */
  lemma {:induction false} DiffParsed(sections: seq<Section>, rules: PathRules)
    requires AllPrintable(sections)
    ensures var r := ParseFrom(PrintDiff(sections), Start, rules);
      && (r.Success? <==> AllOwned(sections, rules))
      && (r.Success? ==> ReadDiff(sections, rules, r.value))
  {
    SectionsParsed(sections, rules);
    SectionsRead(sections, rules);
  }

  // ------------------------------------------------------------ when the parser raises

  /** An added line looks like a `+++` header whose path is refused. */
  predicate NamesRefused(added: seq<string>, rules: PathRules) {
    exists k :: 0 <= k < |added| && "++ " <= added[k] && DiffPath(added[k][3..], rules).Failure?
  }

  /** The section's label is refused, or the path of an added line that looks like a header. */
  ghost predicate SectionNamesRefused(section: Section, rules: PathRules) {
    || (section.hunks != [] && DiffPath(section.newLabel, rules).Failure?)
    || exists j :: 0 <= j < |section.hunks| && NamesRefused(section.hunks[j].added, rules)
  }

  lemma {:induction false} NamedFailsIff(added: seq<string>, current: Option<string>, rules: PathRules)
    ensures Named(added, current, rules).Failure? <==> NamesRefused(added, rules)
  {
    if added != [] {
      var rest := added[1..];
      assert forall k :: 0 < k < |added| ==> added[k] == rest[k - 1];
      if "++ " <= added[0] {
        var path := DiffPath(added[0][3..], rules);
        assert NamesRefused(added, rules) <==> path.Failure? || NamesRefused(rest, rules);
        if path.Success? {
          NamedFailsIff(rest, path.value, rules);
        }
      } else {
        assert NamesRefused(added, rules) <==> NamesRefused(rest, rules);
        NamedFailsIff(rest, current, rules);
      }
    }
  }

  lemma {:induction false} OwnerFailsIff(hunks: seq<Hunk>, current: Option<string>, rules: PathRules)
    ensures Owner(hunks, current, rules).Failure? <==>
      exists j :: 0 <= j < |hunks| && NamesRefused(hunks[j].added, rules)
  {
    if hunks != [] {
      var last := |hunks| - 1;
      OwnerFailsIff(hunks[..last], current, rules);
      var before := Owner(hunks[..last], current, rules);
      if before.Success? {
        NamedFailsIff(hunks[last].added, if HidesFile(hunks[last]) then None else before.value, rules);
      } else {
        var j :| 0 <= j < last && NamesRefused(hunks[..last][j].added, rules);
        assert NamesRefused(hunks[j].added, rules);
      }
    }
  }

  /** Reading a printed diff back raises exactly when the path of a label, or of some added line that
      looks like a `+++` header, is refused. */
  lemma {:induction false} RaisesIffHeaderRefused(sections: seq<Section>, rules: PathRules)
    requires AllPrintable(sections)
    ensures ParseFrom(PrintDiff(sections), Start, rules).Failure? <==>
      exists i :: 0 <= i < |sections| && SectionNamesRefused(sections[i], rules)
  {
    DiffParsed(sections, rules);
    forall i | 0 <= i < |sections|
      ensures SectionReads(sections[i], rules) <==> !SectionNamesRefused(sections[i], rules)
    {
      OwnerFailsIff(sections[i].hunks, Labelled(sections[i], rules), rules);
    }
  }

  // ------------------------------------------------------------ when parsing inverts printing

  /** Reading the diff back gives exactly its added lines. */
  ghost predicate ReadExactly(sections: seq<Section>, rules: PathRules) {
    var r := ParseFrom(PrintDiff(sections), Start, rules);
    && r.Success? && NoEmptyEntry(r.value.changed)
    && forall path, line :: Holds(r.value.changed, path, line) <==> ChangedLine(sections, path, line)
  }

  /** The label and every added header can be read, and every hunk of the section that adds lines is
      counted to the section's own file. */
  ghost predicate KeepsHunks(section: Section, rules: PathRules) {
    && SectionReads(section, rules)
    && forall j :: 0 <= j < |section.hunks| && section.hunks[j].added != [] ==>
         Owner(section.hunks[..j], Labelled(section, rules), rules) == Success(section.newPath)
  }

  ghost predicate DisjointHunks(hunks: seq<Hunk>) {
    forall i, j, line :: 0 <= i < j < |hunks| && Adds(hunks[i], line) ==> !Adds(hunks[j], line)
  }

  /** Each surviving file has one section, and no two hunks of it add the same line. */
  ghost predicate GitShaped(sections: seq<Section>) {
    && (forall i, j :: 0 <= i < j < |sections| && sections[i].newPath.Some? ==>
          sections[i].newPath != sections[j].newPath)
    && forall i :: 0 <= i < |sections| ==> DisjointHunks(sections[i].hunks)
  }

  /** The section's label, or an added line of it that looks like a header, names this file. */
  ghost predicate NamesFile(section: Section, path: string, rules: PathRules) {
    || Labelled(section, rules) == Some(path)
    || exists j :: 0 <= j < |section.hunks| && AddsHeaderOf(section.hunks[j].added, path, rules)
  }

  predicate AddsHeaderOf(added: seq<string>, path: string, rules: PathRules) {
    exists k :: 0 <= k < |added| && "++ " <= added[k] && DiffPath(added[k][3..], rules) == Success(Some(path))
  }

  /** No label and no added header of a section names the file of another section of the diff. */
  ghost predicate NamesNoOther(sections: seq<Section>, rules: PathRules) {
    forall i, k :: 0 <= i < |sections| && 0 <= k < |sections| && i != k ==>
      sections[k].newPath.Some? && sections[i].hunks != [] ==>
        !NamesFile(sections[i], sections[k].newPath.value, rules)
  }

  /** Parsing inverts printing when every section keeps its hunks. */
  lemma {:induction false} ReadExactlyWhenHunksKept(sections: seq<Section>, rules: PathRules)
    requires AllPrintable(sections)
    requires forall i :: 0 <= i < |sections| ==> KeepsHunks(sections[i], rules)
    ensures ReadExactly(sections, rules)
  {
    DiffParsed(sections, rules);
    forall path, line
      ensures CountedLine(sections, rules, path, line) <==> ChangedLine(sections, path, line)
    {
      forall i | 0 <= i < |sections|
        ensures AddsUnder(sections[i].hunks, Labelled(sections[i], rules), rules, path, line) <==>
          sections[i].newPath == Some(path) && AddsSomewhere(sections[i].hunks, line)
      {
        KeptIsCounted(sections[i], rules, path, line);
      }
    }
  }

  lemma {:induction false} KeptIsCounted(section: Section, rules: PathRules, path: string, line: nat)
    requires KeepsHunks(section, rules)
    ensures AddsUnder(section.hunks, Labelled(section, rules), rules, path, line) <==>
      section.newPath == Some(path) && AddsSomewhere(section.hunks, line)
  {
    var hunks, named := section.hunks, Labelled(section, rules);
    forall j | 0 <= j < |hunks| && Adds(hunks[j], line)
      ensures Owns(hunks, named, rules, j, path) <==> section.newPath == Some(path)
    {
      assert hunks[j].added != [];
      assert Owner(section.hunks[..j], named, rules) == Success(section.newPath);
    }
    if section.newPath == Some(path) && AddsSomewhere(hunks, line) {
      var j :| 0 <= j < |hunks| && Adds(hunks[j], line);
      assert Owns(hunks, named, rules, j, path);
    }
    if AddsUnder(hunks, named, rules, path, line) {
      var j :| 0 <= j < |hunks| && Owns(hunks, named, rules, j, path) && Adds(hunks[j], line);
      assert AddsSomewhere(hunks, line);
    }
  }

  /** When no label and no added header names the file of another section of the diff, parsing inverts printing
      exactly when every section keeps its hunks. */
  lemma {:induction false} ReadExactlyIffHunksKept(sections: seq<Section>, rules: PathRules)
    requires GitShaped(sections) && AllPrintable(sections) && NamesNoOther(sections, rules)
    ensures ReadExactly(sections, rules) <==> forall i :: 0 <= i < |sections| ==> KeepsHunks(sections[i], rules)
  {
    if ReadExactly(sections, rules) {
      DiffParsed(sections, rules);
      forall i, j | 0 <= i < |sections| && 0 <= j < |sections[i].hunks| && sections[i].hunks[j].added != []
        ensures Owner(sections[i].hunks[..j], Labelled(sections[i], rules), rules) == Success(sections[i].newPath)
      {
        ExactKeepsHunk(sections, rules, i, j);
      }
    } else if forall i :: 0 <= i < |sections| ==> KeepsHunks(sections[i], rules) {
      ReadExactlyWhenHunksKept(sections, rules);
    }
  }

  /** A hunk of an exactly read diff is counted to its section's file: its first added line is a
      line of no other hunk. */
  lemma {:induction false} ExactKeepsHunk(sections: seq<Section>, rules: PathRules, i: nat, j: nat)
    requires GitShaped(sections) && AllPrintable(sections) && NamesNoOther(sections, rules)
    requires ReadExactly(sections, rules)
    requires i < |sections| && j < |sections[i].hunks| && sections[i].hunks[j].added != []
    ensures Owner(sections[i].hunks[..j], Labelled(sections[i], rules), rules) == Success(sections[i].newPath)
  {
    var hunks, named := sections[i].hunks, Labelled(sections[i], rules);
    var line := hunks[j].newStart;
    ExactCounts(sections, rules);
    OwnerOfPrefix(hunks, j, named, rules);
    assert Adds(hunks[j], line) && AddsSomewhere(hunks, line);
    var owner := Owner(hunks[..j], named, rules).value;
    if sections[i].newPath.Some? {
      assert ChangedLine(sections, sections[i].newPath.value, line);
      CountedIsKept(sections, rules, i, j);
    } else if owner.Some? {
      assert Owns(hunks, named, rules, j, owner.value);
      assert AddsUnder(hunks, named, rules, owner.value, line);
      assert CountedLine(sections, rules, owner.value, line);
      DeletedNamesNone(sections, rules, i, j, owner.value);
    }
  }

  lemma {:induction false} ExactCounts(sections: seq<Section>, rules: PathRules)
    requires AllPrintable(sections) && ReadExactly(sections, rules)
    ensures AllOwned(sections, rules)
    ensures forall path, line :: CountedLine(sections, rules, path, line) <==> ChangedLine(sections, path, line)
  {
    DiffParsed(sections, rules);
  }

  /** A surviving file's line that is counted to it comes from its own hunk. */
  lemma {:induction false} CountedIsKept(sections: seq<Section>, rules: PathRules, i: nat, j: nat)
    requires GitShaped(sections) && NamesNoOther(sections, rules)
    requires i < |sections| && j < |sections[i].hunks| && Adds(sections[i].hunks[j], sections[i].hunks[j].newStart)
    requires sections[i].newPath.Some?
    requires CountedLine(sections, rules, sections[i].newPath.value, sections[i].hunks[j].newStart)
    ensures Owns(sections[i].hunks, Labelled(sections[i], rules), rules, j, sections[i].newPath.value)
  {
    var path, line := sections[i].newPath.value, sections[i].hunks[j].newStart;
    var k :| 0 <= k < |sections| && AddsUnder(sections[k].hunks, Labelled(sections[k], rules), rules, path, line);
    var hunks := sections[k].hunks;
    var m :| 0 <= m < |hunks| && Owns(hunks, Labelled(sections[k], rules), rules, m, path) && Adds(hunks[m], line);
    OwnerIsNamed(sections[k], m, path, rules);
    assert k == i;
    assert m == j;
  }

  /** A deleted file's hunk is counted to no file of the diff. */
  lemma {:induction false} DeletedNamesNone(sections: seq<Section>, rules: PathRules, i: nat, j: nat, path: string)
    requires NamesNoOther(sections, rules) && i < |sections| && j < |sections[i].hunks|
    requires sections[i].newPath.None?
    requires Owner(sections[i].hunks[..j], Labelled(sections[i], rules), rules) == Success(Some(path))
    ensures forall line :: !ChangedLine(sections, path, line)
  {
    OwnerIsNamed(sections[i], j, path, rules);
    assert forall k :: 0 <= k < |sections| ==> sections[k].newPath != Some(path);
  }

  lemma {:induction false} OwnerOfPrefix(hunks: seq<Hunk>, j: nat, current: Option<string>, rules: PathRules)
    requires j <= |hunks| && Owner(hunks, current, rules).Success?
    ensures Owner(hunks[..j], current, rules).Success?
  {
    if j < |hunks| {
      OwnerOfPrefix(hunks[..|hunks| - 1], j, current, rules);
      assert hunks[..|hunks| - 1][..j] == hunks[..j];
    } else {
      assert hunks[..j] == hunks;
    }
  }

  /** Lines are counted to no file but those the section's label and its added headers name. */
  lemma {:induction false} OwnerIsNamed(section: Section, j: nat, path: string, rules: PathRules)
    requires j <= |section.hunks|
    requires Owner(section.hunks[..j], Labelled(section, rules), rules) == Success(Some(path))
    ensures NamesFile(section, path, rules)
  {
    OwnerIsNamedIn(section.hunks[..j], Labelled(section, rules), path, rules);
    if m :| 0 <= m < j && AddsHeaderOf(section.hunks[..j][m].added, path, rules) {
      assert AddsHeaderOf(section.hunks[m].added, path, rules);
    }
  }

  lemma {:induction false} OwnerIsNamedIn(hunks: seq<Hunk>, current: Option<string>, path: string, rules: PathRules)
    requires Owner(hunks, current, rules) == Success(Some(path))
    ensures current == Some(path) || exists j :: 0 <= j < |hunks| && AddsHeaderOf(hunks[j].added, path, rules)
  {
    if hunks != [] {
      var last := |hunks| - 1;
      var before := Owner(hunks[..last], current, rules).value;
      NamedIsNamed(hunks[last].added, if HidesFile(hunks[last]) then None else before, path, rules);
      if before == Some(path) {
        OwnerIsNamedIn(hunks[..last], current, path, rules);
        if j :| 0 <= j < last && AddsHeaderOf(hunks[..last][j].added, path, rules) {
          assert AddsHeaderOf(hunks[j].added, path, rules);
        }
      }
    }
  }

  lemma {:induction false} NamedIsNamed(added: seq<string>, current: Option<string>, path: string, rules: PathRules)
    requires Named(added, current, rules) == Success(Some(path))
    ensures current == Some(path) || AddsHeaderOf(added, path, rules)
  {
    if added != [] {
      var rest := added[1..];
      var next := if "++ " <= added[0] then DiffPath(added[0][3..], rules).value else current;
      NamedIsNamed(rest, next, path, rules);
      if AddsHeaderOf(rest, path, rules) {
        var k :| 0 <= k < |rest| && "++ " <= rest[k] && DiffPath(rest[k][3..], rules) == Success(Some(path));
        assert added[k + 1] == rest[k];
      }
    }
  }

  /** For one file: parsing its section gives exactly its added lines exactly when it keeps its
      hunks. */
  lemma {:induction false} OneFileReadExactlyIffHunksKept(section: Section, rules: PathRules)
    requires Printable(section) && DisjointHunks(section.hunks)
    ensures ReadExactly([section], rules) <==> KeepsHunks(section, rules)
  {
    ReadExactlyIffHunksKept([section], rules);
    assert [section][0] == section;
  }

  // ------------------------------------------------------------ without added headers

  /** No added line looks, once printed, like the line that names a file. */
  ghost predicate AddsNoHeader(hunk: Hunk) {
    forall k :: 0 <= k < |hunk.added| ==> !("++ " <= hunk.added[k])
  }

  ghost predicate AddNoHeader(hunks: seq<Hunk>) {
    forall j :: 0 <= j < |hunks| ==> AddsNoHeader(hunks[j])
  }

  /** No hunk before this one hides the file from the reader. */
  predicate Seen(hunks: seq<Hunk>, j: nat)
    requires j <= |hunks|
  {
    forall i :: 0 <= i < j ==> !HidesFile(hunks[i])
  }

  /** In a file that survives, a removed line that looks like a header comes before a hunk that
      adds lines. */
  ghost predicate LosesHunk(section: Section) {
    section.newPath.Some? &&
    exists j :: 0 <= j < |section.hunks| && section.hunks[j].added != [] && !Seen(section.hunks, j)
  }

  lemma {:induction false} NamedWithoutHeaders(added: seq<string>, current: Option<string>, rules: PathRules)
    requires forall k :: 0 <= k < |added| ==> !("++ " <= added[k])
    ensures Named(added, current, rules) == Success(current)
  {
    if added != [] {
      NamedWithoutHeaders(added[1..], current, rules);
    }
  }

  lemma {:induction false} OwnerWithoutHeaders(hunks: seq<Hunk>, j: nat, current: Option<string>, rules: PathRules)
    requires AddNoHeader(hunks) && j <= |hunks|
    ensures Owner(hunks[..j], current, rules) == Success(if Seen(hunks, j) then current else None)
  {
    if j > 0 {
      OwnerWithoutHeaders(hunks, j - 1, current, rules);
      var before := if Seen(hunks, j - 1) then current else None;
      var hunk := hunks[j - 1];
      assert hunks[..j][..j - 1] == hunks[..j - 1] && hunks[..j][j - 1] == hunk && AddsNoHeader(hunk);
      NamedWithoutHeaders(hunk.added, if HidesFile(hunk) then None else before, rules);
      assert Seen(hunks, j) <==> Seen(hunks, j - 1) && !HidesFile(hunk);
    }
  }

  lemma {:induction false} KeepsHunksIffNoneLost(section: Section, rules: PathRules)
    requires AddNoHeader(section.hunks)
    requires DiffPath(section.newLabel, rules) == Success(section.newPath)
    ensures KeepsHunks(section, rules) <==> !LosesHunk(section)
  {
    forall j: nat | j <= |section.hunks|
      ensures Owner(section.hunks[..j], section.newPath, rules)
           == Success(if Seen(section.hunks, j) then section.newPath else None)
    {
      OwnerWithoutHeaders(section.hunks, j, section.newPath, rules);
    }
    assert section.hunks[..|section.hunks|] == section.hunks;
  }

  // ------------------------------------------------------------ added lines that look like a header

  lemma {:induction false} PathStep(path: string, state: State, rules: PathRules)
    requires PlainPath(path, rules)
    ensures Step(state, "+++ " + ("b/" + path), rules) == Success(State(Some(path), true, state.changed))
  {
    var line := "+++ " + ("b/" + path);
    PlainPathReadsBack(path, rules);
    assert line[4..] == "b/" + path;
    FirstCharacterTells(line);
  }

  /** An added line that reads as a `+++` header moves the hunk after it to the file it names. */
  lemma {:induction false} AddedHeaderMovesHunk(path: string, hunk: Hunk, state: State, rules: PathRules)
    requires PlainPath(path, rules) && state.sawFile && hunk.added != []
    ensures ParseFrom(Marked('+', ["++ " + ("b/" + path)]) + [HunkHeader(hunk)], state, rules)
         == Success(State(Some(path), true, Touch(state.changed, path, LinesFrom(hunk.newStart, |hunk.added|))))
  {
    var line := "+++ " + ("b/" + path);
    var printed := Marked('+', ["++ " + ("b/" + path)]);
    assert printed[0] == line;
    assert printed == [line];
    PathStep(path, state, rules);
    OneLine(line, state, rules);
    HeaderStep(hunk, State(Some(path), true, state.changed), rules);
    OneLine(HunkHeader(hunk), State(Some(path), true, state.changed), rules);
    ParseAppended(printed, [HunkHeader(hunk)], state, rules);
  }

  const KeepsPaths := PathRules(_ => None, path => Some(path))

  /** A line that names `named` put before a file's first line, and a line put behind its fourth. */
  function Misleading(named: string): seq<Hunk> {
    [Hunk(0, 1, "", [], ["++ " + ("b/" + named)], false, false), Hunk(4, 6, "", [], ["x"], false, false)]
  }

  function Misled(path: string, named: string): Section {
    Section("a/" + path + " b/" + path, [], PlainLabel("a/", Some(path)), PlainLabel("b/", Some(path)), Some(path),
            Misleading(named))
  }

  lemma {:induction false} MisleadingOwners(path: string, named: string)
    requires PlainPath(named, KeepsPaths)
    ensures Owner(Misleading(named)[..0], Some(path), KeepsPaths) == Success(Some(path))
    ensures Owner(Misleading(named)[..1], Some(path), KeepsPaths) == Success(Some(named))
    ensures Owner(Misleading(named), Some(path), KeepsPaths) == Success(Some(named))
  {
    var hunks := Misleading(named);
    var first, line := hunks[0], hunks[0].added[0];
    assert hunks[..1] == [first] && [first][..0] == [] && hunks[..2] == hunks;
    assert first.added == [line] && "++ " <= line && line[3..] == "b/" + named;
    PlainPathReadsBack(named, KeepsPaths);
    assert Named([], Some(named), KeepsPaths) == Success(Some(named));
    assert Named([line], Some(path), KeepsPaths) == Named([], Some(named), KeepsPaths);
    assert Owner([first], Some(path), KeepsPaths) == OwnerAfter(first, Some(path), KeepsPaths);
    NamedWithoutHeaders(["x"], Some(named), KeepsPaths);
    assert OwnerAfter(hunks[1], Some(named), KeepsPaths) == Success(Some(named));
  }

  lemma {:induction false} MisleadingAdds(named: string, line: nat)
    ensures Adds(Misleading(named)[0], line) <==> line == 1
    ensures Adds(Misleading(named)[1], line) <==> line == 6
    ensures AddsSomewhere(Misleading(named), line) <==> line == 1 || line == 6
  {
    assert Adds(Misleading(named)[0], line) ==> AddsSomewhere(Misleading(named), line);
    assert Adds(Misleading(named)[1], line) ==> AddsSomewhere(Misleading(named), line);
  }

  lemma {:induction false} MisledIsGitShaped(path: string, named: string)
    ensures DisjointHunks(Misleading(named)) && Misled(path, named).hunks == Misleading(named)
  {
    forall line
      ensures !(Adds(Misleading(named)[0], line) && Adds(Misleading(named)[1], line))
    {
      MisleadingAdds(named, line);
    }
  }

  /** So parsing does not invert printing for a file `f` that gets the line `++ b/g` before its
      first line and another behind its fourth: that one is not counted to `f`. */
  lemma {:induction false} AddedHeaderMisleads()
    ensures ChangedLine([Misled("f", "g")], "f", 6) && GitShaped([Misled("f", "g")])
    ensures !ReadExactly([Misled("f", "g")], KeepsPaths)
  {
    var section := Misled("f", "g");
    MisleadingOwners("f", "g");
    MisleadingAdds("g", 6);
    MisledIsGitShaped("f", "g");
    PlainLabelReadsBack(Some("f"), KeepsPaths);
    assert [section][0] == section;
    OneFileReadExactlyIffHunksKept(section, KeepsPaths);
  }

  /** Headers that name other files of the diff can cancel out: two files that each lose a hunk to
      the other, at the same line, are read exactly. */
  lemma {:induction false} SwappedHunksReadExactly()
    ensures var sections := [Misled("f", "g"), Misled("g", "f")];
      GitShaped(sections) && !KeepsHunks(sections[0], KeepsPaths) && ReadExactly(sections, KeepsPaths)
  {
    var sections := [Misled("f", "g"), Misled("g", "f")];
    SwappedIsGitShaped(sections);
    MisleadingOwners("f", "g");
    MisleadingOwners("g", "f");
    PlainLabelReadsBack(Some("f"), KeepsPaths);
    PlainLabelReadsBack(Some("g"), KeepsPaths);
    DiffParsed(sections, KeepsPaths);
    forall path, line
      ensures CountedLine(sections, KeepsPaths, path, line) <==> ChangedLine(sections, path, line)
    {
      SwappedCounts(sections, path, line);
    }
  }

  lemma {:induction false} SwappedIsGitShaped(sections: seq<Section>)
    requires sections == [Misled("f", "g"), Misled("g", "f")]
    ensures GitShaped(sections)
  {
    MisledIsGitShaped("f", "g");
    MisledIsGitShaped("g", "f");
    assert sections[0].newPath != sections[1].newPath;
  }

  lemma {:induction false} SwappedCounts(sections: seq<Section>, path: string, line: nat)
    requires sections == [Misled("f", "g"), Misled("g", "f")]
    requires Labelled(sections[0], KeepsPaths) == Some("f") && Labelled(sections[1], KeepsPaths) == Some("g")
    ensures CountedLine(sections, KeepsPaths, path, line) <==> ChangedLine(sections, path, line)
  {
    MisledCounts("f", "g", path, line);
    MisledCounts("g", "f", path, line);
    MisleadingAdds("f", line);
    MisleadingAdds("g", line);
    TwoSections(sections, path, line);
  }

  lemma {:induction false} MisledCounts(own: string, named: string, path: string, line: nat)
    requires PlainPath(named, KeepsPaths)
    ensures AddsUnder(Misleading(named), Some(own), KeepsPaths, path, line) <==>
      (path == own && line == 1) || (path == named && line == 6)
  {
    var hunks := Misleading(named);
    MisleadingOwners(own, named);
    MisleadingAdds(named, line);
    assert Owns(hunks, Some(own), KeepsPaths, 0, path) <==> path == own;
    assert Owns(hunks, Some(own), KeepsPaths, 1, path) <==> path == named;
  }

  lemma {:induction false} TwoSections(sections: seq<Section>, path: string, line: nat)
    requires |sections| == 2
    ensures CountedLine(sections, KeepsPaths, path, line) <==>
      AddsUnder(sections[0].hunks, Labelled(sections[0], KeepsPaths), KeepsPaths, path, line)
      || AddsUnder(sections[1].hunks, Labelled(sections[1], KeepsPaths), KeepsPaths, path, line)
    ensures ChangedLine(sections, path, line) <==>
      (sections[0].newPath == Some(path) && AddsSomewhere(sections[0].hunks, line))
      || (sections[1].newPath == Some(path) && AddsSomewhere(sections[1].hunks, line))
  {
    CountedInTwo(sections, path, line);
  }

  lemma {:induction false} CountedInTwo(sections: seq<Section>, path: string, line: nat)
    requires |sections| == 2
    ensures CountedLine(sections, KeepsPaths, path, line) <==>
      AddsUnder(sections[0].hunks, Labelled(sections[0], KeepsPaths), KeepsPaths, path, line)
      || AddsUnder(sections[1].hunks, Labelled(sections[1], KeepsPaths), KeepsPaths, path, line)
  {
  }

  // ------------------------------------------------------------ quoted labels

  const ACCENTED := Section(
    "\"a/\\303\\251\" \"b/\\303\\251\"", [], "/dev/null", "\"b/\\303\\251\"", Some("\U{00E9}"),
    [Hunk(0, 1, "", [], ["x"], false, false)])

  /** A new file named with an accented letter, whose label git quotes byte by byte: the reader takes
      each byte for a character, and counts the file's line to another name. */
  lemma {:induction false} QuotedNameIsMisread(rules: PathRules)
    requires rules.unquote("b/\\303\\251") == Some("b/" + "\U{00C3}\U{00A9}")
    requires rules.normalise("\U{00C3}\U{00A9}") == Some("\U{00C3}\U{00A9}")
    ensures Labelled(ACCENTED, rules) == Some("\U{00C3}\U{00A9}") && GitShaped([ACCENTED])
    ensures !ReadExactly([ACCENTED], rules)
  {
    assert ACCENTED.newLabel == "\"" + "b/\\303\\251" + "\"";
    QuotedLabelReads("b/\\303\\251", "\U{00C3}\U{00A9}", rules);
    assert "\U{00C3}\U{00A9}"[0] != "\U{00E9}"[0];
    assert [ACCENTED][0] == ACCENTED && ACCENTED.hunks[..0] == [];
    OneFileReadExactlyIffHunksKept(ACCENTED, rules);
  }
}
