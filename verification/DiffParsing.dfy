/** Reading the changed lines out of `git diff --unified=0` (`parse_unified_zero_diff`), and
    printing such a diff. */
module DiffParsing {
  import opened Decimals
  import opened Wrappers

  // ------------------------------------------------------------ paths

  /** The parts of path reading that are library calls: decoding a quoted path, and normalising
      a repository path, each nothing when it refuses. */
  datatype PathRules = PathRules(unquote: string -> Option<string>, normalise: string -> Option<string>)

  predicate IsSpace(c: char) {
    c in " \t\n\r" || c == '\U{000B}' || c == '\U{000C}'
  }

  function Trim(text: string): string {
    if text != "" && IsSpace(text[0]) then Trim(text[1..])
    else if text != "" && IsSpace(text[|text| - 1]) then Trim(text[..|text| - 1])
    else text
  }

  datatype DiffError = HunkWithoutFile | MalformedHunk(line: string) | InvalidPath(value: string)

  /** The file a `+++` line names: nothing for the null device. */
  function DiffPath(value: string, rules: PathRules): Result<Option<string>, DiffError> {
    var trimmed := Trim(value);
    if trimmed == "/dev/null" then Success(None)
    else
      var decoded :=
        if trimmed != "" && trimmed[0] == '"' && trimmed[|trimmed| - 1] == '"'
        then rules.unquote(if |trimmed| > 1 then trimmed[1..|trimmed| - 1] else "")
        else Some(trimmed);
      if decoded.None? then Failure(InvalidPath(value))
      else
        var path := if "b/" <= decoded.value then decoded.value[2..] else decoded.value;
        var normal := rules.normalise(path);
        if normal.None? then Failure(InvalidPath(value)) else Success(Some(normal.value))
  }

  // ------------------------------------------------------------ hunk headers

  function Expect(text: string, prefix: string): Option<string> {
    if prefix <= text then Some(text[|prefix|..]) else None
  }

  function TakeNumber(text: string): Option<(nat, string)> {
    var n := DigitRun(text);
    if n == 0 then None else Some((Value(text[..n]), text[n..]))
  }

  /** A count after a comma, or one when there is none. */
  function TakeCount(text: string): (nat, string) {
    if "," <= text && TakeNumber(text[1..]).Some? then TakeNumber(text[1..]).value else (1, text)
  }

  /** A start and a count, as in `12,3` or `12`. */
  function TakeRange(text: string): Option<(nat, nat, string)> {
    var start := TakeNumber(text);
    if start.None? then None
    else
      var count := TakeCount(start.value.1);
      Some((start.value.0, count.0, count.1))
  }

  /** The new-side start and count of a hunk header. */
  function ParseHunk(line: string): Option<(nat, nat)> {
    var oldSide := Expect(line, "@@ -");
    if oldSide.None? then None
    else
      var oldRange := TakeRange(oldSide.value);
      if oldRange.None? then None
      else
        var newSide := Expect(oldRange.value.2, " +");
        if newSide.None? then None
        else
          var newRange := TakeRange(newSide.value);
          if newRange.None? || Expect(newRange.value.2, " @@").None? then None
          else Some((newRange.value.0, newRange.value.1))
  }

  // ------------------------------------------------------------ the parser

  type Changed = map<string, set<nat>>

  datatype State = State(current: Option<string>, sawFile: bool, changed: Changed)

  predicate Within(line: nat, start: nat, count: nat) {
    start <= line < start + count
  }

  function LinesFrom(start: nat, count: nat): set<nat> {
    set l: nat | l < start + count && Within(l, start, count)
  }

  function Touch(changed: Changed, path: string, lines: set<nat>): Changed {
    changed[path := (if path in changed then changed[path] else {}) + lines]
  }

  /** What one line of the diff does. */
  function Step(state: State, line: string, rules: PathRules): Result<State, DiffError> {
    if "diff --git " <= line then Success(state.(current := None, sawFile := false))
    else if "--- " <= line then Success(state.(current := None))
    else if "+++ " <= line then
      var path := DiffPath(line[4..], rules);
      if path.Failure? then Failure(path.error) else Success(state.(current := path.value, sawFile := true))
    else if "@@ " <= line then
      if !state.sawFile then Failure(HunkWithoutFile)
      else
        var hunk := ParseHunk(line);
        if hunk.None? then Failure(MalformedHunk(line))
        else if state.current.None? || hunk.value.1 == 0 then Success(state)
        else Success(state.(changed := Touch(state.changed, state.current.value,
                                             LinesFrom(hunk.value.0, hunk.value.1))))
    else Success(state)
  }

  function ParseFrom(lines: seq<string>, state: State, rules: PathRules): Result<State, DiffError> {
    if lines == [] then Success(state)
    else
      var next := Step(state, lines[0], rules);
      if next.Failure? then next else ParseFrom(lines[1..], next.value, rules)
  }

  const Start := State(None, false, map[])

  method ParseUnifiedZeroDiff(lines: seq<string>, rules: PathRules) returns (r: Result<Changed, DiffError>)
    ensures var parsed := ParseFrom(lines, Start, rules);
      r == if parsed.Failure? then Failure(parsed.error) else Success(parsed.value.changed)
  {
    var changed: Changed := map[];
    var current: Option<string> := None;
    var sawFile := false;
    assert lines[0..] == lines;
    for i := 0 to |lines|
      invariant ParseFrom(lines[i..], State(current, sawFile, changed), rules) == ParseFrom(lines, Start, rules)
    {
      var line := lines[i];
      assert lines[i..][1..] == lines[i + 1..];
      if "diff --git " <= line || "--- " <= line {
        current := None;
        if "diff --git " <= line {
          sawFile := false;
        }
        continue;
      }
      if "+++ " <= line {
        var path := DiffPath(line[4..], rules);
        if path.Failure? {
          return Failure(path.error);
        }
        current, sawFile := path.value, true;
        continue;
      }
      if "@@ " <= line {
        if !sawFile {
          return Failure(HunkWithoutFile);
        }
        var hunk := ParseHunk(line);
        if hunk.None? {
          return Failure(MalformedHunk(line));
        }
        if current.None? {
          continue;
        }
        var (start, length) := hunk.value;
        if length != 0 {
          changed := Touch(changed, current.value, LinesFrom(start, length));
        }
      }
    }
    return Success(changed);
  }

  lemma {:induction false} ParseAppended(a: seq<string>, b: seq<string>, state: State, rules: PathRules)
    ensures var first := ParseFrom(a, state, rules);
      ParseFrom(a + b, state, rules) == if first.Failure? then first else ParseFrom(b, first.value, rules)
  {
    if a == [] {
      assert a + b == b;
    } else {
      assert (a + b)[1..] == a[1..] + b;
      var next := Step(state, a[0], rules);
      if next.Success? {
        ParseAppended(a[1..], b, next.value, rules);
      }
    }
  }

  // ------------------------------------------------------------ the printer

  /** A zero-context hunk: its lines removed, then its lines added; each side may end with the
      marker for a file without a final newline. */
  datatype Hunk = Hunk(
    oldStart: nat, newStart: nat, context: string,
    removed: seq<string>, added: seq<string>, oldUnended: bool, newUnended: bool)

  /** A file's section: edited, new, deleted, renamed or otherwise changed.  A section without
      hunks has no `---` and `+++` lines; the labels are what those lines show, quoted or not, and
      `newPath` is the file they are meant for, if it survives. */
  datatype Section = Section(
    title: string, extended: seq<string>, oldLabel: string, newLabel: string, newPath: Option<string>,
    hunks: seq<Hunk>)

  function PrintRange(start: nat, count: nat): string {
    if count == 1 then Numeral(start) else Numeral(start) + ("," + Numeral(count))
  }

  function HunkHeader(hunk: Hunk): string {
    "@@ -" + (PrintRange(hunk.oldStart, |hunk.removed|)
    + (" +" + (PrintRange(hunk.newStart, |hunk.added|) + (" @@" + hunk.context))))
  }

  function Marked(sign: char, lines: seq<string>): (marked: seq<string>)
    ensures |marked| == |lines| && forall i :: 0 <= i < |lines| ==> marked[i] == [sign] + lines[i]
  {
    seq(|lines|, i requires 0 <= i < |lines| => [sign] + lines[i])
  }

  const UNENDED := "\\ No newline at end of file"

  function HunkBody(hunk: Hunk): seq<string> {
    Marked('-', hunk.removed) + (if hunk.oldUnended then [UNENDED] else [])
    + Marked('+', hunk.added) + (if hunk.newUnended then [UNENDED] else [])
  }

  function PrintHunk(hunk: Hunk): seq<string> {
    [HunkHeader(hunk)] + HunkBody(hunk)
  }

  function PrintHunks(hunks: seq<Hunk>): seq<string> {
    if hunks == [] then [] else PrintHunks(hunks[..|hunks| - 1]) + PrintHunk(hunks[|hunks| - 1])
  }

  /** The label of a path that needs no quotes; git ends one that holds a space with a tab. */
  function PlainLabel(side: string, path: Option<string>): string {
    if path.None? then "/dev/null" else side + path.value + if ' ' in path.value then "\t" else ""
  }

  function PrintSection(section: Section): seq<string> {
    ["diff --git " + section.title] + section.extended
    + if section.hunks == [] then []
      else ["--- " + section.oldLabel, "+++ " + section.newLabel] + PrintHunks(section.hunks)
  }

  function PrintDiff(sections: seq<Section>): seq<string> {
    if sections == [] then []
    else PrintDiff(sections[..|sections| - 1]) + PrintSection(sections[|sections| - 1])
  }

  predicate IsSpecial(line: string) {
    "diff --git " <= line || "--- " <= line || "+++ " <= line || "@@ " <= line
  }

  /** A path the reader leaves as it is. */
  predicate PlainPath(path: string, rules: PathRules) {
    && path != "" && path[|path| - 1] !in {' ', '\t', '\n', '\r', '\U{000B}', '\U{000C}'}
    && rules.normalise(path) == Some(path)
  }

  /** What git prints between a section's title and its labels is none of the lines the parser acts
      on.  The labels, and the lines removed and added, are arbitrary. */
  ghost predicate Printable(section: Section) {
    forall line :: line in section.extended ==> !IsSpecial(line)
  }

  ghost predicate AllPrintable(sections: seq<Section>) {
    forall i :: 0 <= i < |sections| ==> Printable(sections[i])
  }
}
