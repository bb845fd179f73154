/** Regenerating the configuration-keys table of a reference page (`render_table`,
    `page_with_table`). */
module PageTable {
  import opened Wrappers

  const INDENT := "    "
  const START := "<!-- config-keys:start -->"
  const END := "<!-- config-keys:end -->"
  const START_MARK := INDENT + START
  const END_LINE := INDENT + END + "\n"
  const NOTE_HEADER := "??? note \"In the pipeline file\"\n"

  // ------------------------------------------------------------ searching

  predicate OccursAt(text: string, pattern: string, i: nat) {
    i + |pattern| <= |text| && text[i..i + |pattern|] == pattern
  }

  /** The first occurrence from a place on. */
  function Find(text: string, pattern: string, start: nat): (found: Option<nat>)
    ensures found.Some? ==> start <= found.value && OccursAt(text, pattern, found.value)
    ensures found.Some? ==> forall i: nat :: start <= i < found.value ==> !OccursAt(text, pattern, i)
    ensures found.None? ==> forall i: nat :: start <= i ==> !OccursAt(text, pattern, i)
    decreases |text| - start
  {
    if start + |pattern| > |text| then None
    else if OccursAt(text, pattern, start) then Some(start)
    else Find(text, pattern, start + 1)
  }

  lemma {:induction false} FirstIs(text: string, pattern: string, start: nat, i: nat)
    requires start <= i && OccursAt(text, pattern, i)
    requires forall j: nat :: start <= j < i ==> !OccursAt(text, pattern, j)
    ensures Find(text, pattern, start) == Some(i)
  {
    var found := Find(text, pattern, start);
    assert found.Some? && !(found.value < i) && !(i < found.value);
  }

  // ------------------------------------------------------------ the table

  datatype Row = Row(path: string, type_: string, description: string)

  /** A `|` inside a cell is escaped. */
  function Escaped(text: string): string {
    if text == "" then "" else (if text[0] == '|' then "\\|" else [text[0]]) + Escaped(text[1..])
  }

  function RowLine(row: Row): string {
    "| `" + row.path + "` | " + Escaped(row.type_) + " | " + Escaped(row.description) + " |"
  }

  /** A row shows its path as code, its type and its description, in this order. */
  lemma {:induction false} RowShowsCells(row: Row)
    requires '|' !in row.type_ && '|' !in row.description
    ensures RowLine(row) == "| `" + row.path + "` | " + row.type_ + " | " + row.description + " |"
  {
    NothingToEscape(row.type_);
    NothingToEscape(row.description);
  }

  lemma {:induction false} NothingToEscape(text: string)
    requires '|' !in text
    ensures Escaped(text) == text
  {
    if text != "" {
      NothingToEscape(text[1..]);
    }
  }

  /** Reads an escaped cell back. */
  function Unescaped(text: string): string {
    if text == "" then ""
    else if "\\|" <= text then "|" + Unescaped(text[2..])
    else [text[0]] + Unescaped(text[1..])
  }

  /** Escaping loses nothing, whatever bars and backslashes the text holds. */
  lemma {:induction false} EscapedReadsBack(text: string)
    ensures Unescaped(Escaped(text)) == text
  {
    if text != "" {
      var rest := Escaped(text[1..]);
      EscapedReadsBack(text[1..]);
      if text[0] == '|' {
        assert Escaped(text) == "\\|" + rest && Escaped(text)[2..] == rest;
      } else {
        assert Escaped(text) == [text[0]] + rest && Escaped(text)[1..] == rest;
        assert rest != "" ==> rest[0] != '|';
        assert "\\|"[1] == '|';
      }
    }
  }

  function RowLines(rows: seq<Row>): seq<string> {
    if rows == [] then [] else RowLines(rows[..|rows| - 1]) + [RowLine(rows[|rows| - 1])]
  }

  const HEADING := [START, "", "Every key the config may hold:", "", "| Key | Type | Description |", "|---|---|---|"]

  function TableLines(rows: seq<Row>): seq<string> {
    HEADING + RowLines(rows) + [""]
  }

  function Indented(line: string): string {
    if line == "" then "" else INDENT + line
  }

  /** The lines, each but the empty ones indented and each ended. */
  function Joined(lines: seq<string>): string {
    if lines == [] then "" else Indented(lines[0]) + "\n" + Joined(lines[1..])
  }

  /** The generated block: the table's lines between the two marks. */
  function Block(rows: seq<Row>): string {
    Joined(TableLines(rows) + [END])
  }

  /** The block is these lines, each indented and ended on its own (`JoinedOne`, `JoinedConcat`). */
  lemma {:induction false} BlockIs(rows: seq<Row>)
    ensures Block(rows)
         == Joined(["<!-- config-keys:start -->", "", "Every key the config may hold:", "",
                    "| Key | Type | Description |", "|---|---|---|"]
                   + (RowLines(rows) + ["", "<!-- config-keys:end -->"]))
  {
    assert TableLines(rows) + [END] == HEADING + (RowLines(rows) + ["", END]);
  }

  lemma {:induction false} JoinedConcat(a: seq<string>, b: seq<string>)
    ensures Joined(a + b) == Joined(a) + Joined(b)
  {
    if a == [] {
      assert a + b == b;
    } else {
      assert (a + b)[1..] == a[1..] + b;
      JoinedConcat(a[1..], b);
    }
  }

  lemma {:induction false} JoinedOne(line: string)
    ensures Joined([line]) == (if line == "" then "" else "    " + line) + "\n"
  {
    assert [line][1..] == [];
  }

  /** Each row stands in its own line, in order, indented. */
  lemma {:induction false} RowsAre(rows: seq<Row>, k: nat)
    requires k < |rows|
    ensures |RowLines(rows)| == |rows| && RowLines(rows)[k] == RowLine(rows[k])
    ensures Joined([RowLines(rows)[k]]) == "    " + RowLine(rows[k]) + "\n"
  {
    if k < |rows| - 1 {
      RowsAre(rows[..|rows| - 1], k);
    } else if k > 0 {
      RowsAre(rows[..|rows| - 1], k - 1);
    }
    JoinedOne(RowLine(rows[k]));
  }

  method RenderTable(rows: seq<Row>) returns (block: string)
    ensures block == Block(rows)
  {
    var lines := HEADING;
    for i := 0 to |rows|
      invariant lines == HEADING + RowLines(rows[..i])
    {
      lines := lines + [RowLine(rows[i])];
      assert rows[..i + 1][..i] == rows[..i];
    }
    assert rows[..|rows|] == rows;
    lines := lines + [""];
    lines := lines + [END];
    block := Joined(lines);
  }

  /** A row's texts hold no line break: a path, a type in words, a description in one line. */
  predicate OneLine(row: Row) {
    '\n' !in row.path && '\n' !in row.type_ && '\n' !in row.description
  }

  // ------------------------------------------------------------ the note

  /** How long the text's leading lines are that are empty or indented. */
  function BodyLength(text: string): (n: nat)
    ensures n <= |text| && (n > 0 ==> text[n - 1] == '\n')
  {
    if "\n" <= text then 1 + BodyLength(text[1..])
    else if INDENT <= text && Find(text, "\n", 0).Some? then
      var line := Find(text, "\n", 0).value + 1;
      line + BodyLength(text[line..])
    else 0
  }

  predicate NoteAt(text: string, i: nat) {
    && i <= |text| && (i > 0 ==> text[i - 1] == '\n')
    && OccursAt(text, NOTE_HEADER, i) && BodyEnd(text, i + |NOTE_HEADER|) > i + |NOTE_HEADER|
  }

  function BodyEnd(text: string, start: nat): (end: nat)
    requires start <= |text|
    ensures start <= end <= |text| && (end > start ==> text[end - 1] == '\n')
  {
    start + BodyLength(text[start..])
  }

  /** The start and the end of the first note's body. */
  function FindNote(text: string, i: nat): (note: Option<(nat, nat)>)
    ensures note.Some? ==> note.value.0 < note.value.1 <= |text| && text[note.value.1 - 1] == '\n'
    decreases |text| - i
  {
    if i > |text| then None
    else if NoteAt(text, i) then
      var start := i + |NOTE_HEADER|;
      Some((start, BodyEnd(text, start)))
    else if i == |text| then None
    else FindNote(text, i + 1)
  }

  /** A line of a note's body, with its line break: empty, or indented by four spaces. */
  predicate IsNoteLine(line: string) {
    || line == "\n"
    || (|line| >= 5 && line[..4] == "    " && line[|line| - 1] == '\n' && '\n' !in line[..|line| - 1])
  }

  function Concat(lines: seq<string>): string {
    if lines == [] then "" else lines[0] + Concat(lines[1..])
  }

  /** The body is as many leading lines of this kind as there are. */
  lemma {:induction false} BodyIsNoteLines(text: string) returns (lines: seq<string>)
    ensures (forall l :: l in lines ==> IsNoteLine(l)) && Concat(lines) == text[..BodyLength(text)]
    ensures !NoteLineFollows(text, BodyLength(text))
    ensures lines == [] <==> BodyLength(text) == 0
  {
    var k := FirstLineLength(text);
    if k == 0 {
      lines := [];
    } else {
      var rest := text[k..];
      var more := BodyIsNoteLines(rest);
      lines := [text[..k]] + more;
      FirstAndRest(text[..k], more);
      SplitBody(text, k, BodyLength(rest));
      NothingFollows(text, k, BodyLength(rest), BodyLength(text));
    }
  }

  lemma {:induction false} NothingFollows(text: string, k: nat, n: nat, end: nat)
    requires k <= |text| && !NoteLineFollows(text[k..], n) && end == k + n
    ensures !NoteLineFollows(text, end)
  {
    forall m: nat
      ensures !LineAt(text, end, m)
    {
      LineBehind(text, k, n, m);
    }
  }

  lemma {:induction false} FirstAndRest(first: string, more: seq<string>)
    ensures Concat([first] + more) == first + Concat(more)
  {
    assert ([first] + more)[1..] == more;
  }

  lemma {:induction false} SplitBody(text: string, k: nat, n: nat)
    requires k + n <= |text|
    ensures text[..k + n] == text[..k] + text[k..][..n]
  {
  }

  lemma {:induction false} LineBehind(text: string, k: nat, n: nat, m: nat)
    requires k <= |text|
    ensures LineAt(text, k + n, m) <==> LineAt(text[k..], n, m)
  {
    if k + n + m <= |text| {
      assert text[k + n..k + n + m] == text[k..][n..n + m];
    }
  }

  /** The length of the text's first line if it is a note line, with what is left behind it. */
  lemma {:induction false} FirstLineLength(text: string) returns (k: nat)
    ensures k <= |text|
    ensures k == 0 ==> BodyLength(text) == 0 && !NoteLineFollows(text, 0)
    ensures k > 0 ==> IsNoteLine(text[..k]) && BodyLength(text) == k + BodyLength(text[k..])
  {
    if text != "" && text[0] == '\n' {
      k := 1;
      assert text[..1] == "\n";
    } else if |text| >= 4 && text[..4] == "    " && Find(text, "\n", 0).Some? {
      k := Find(text, "\n", 0).value + 1;
      BreakEndsLine(text, k - 1);
    } else {
      k := 0;
      forall m: nat
        ensures !LineAt(text, 0, m)
      {
        NoLineAt(text, m);
      }
    }
  }

  lemma {:induction false} NoLineAt(text: string, m: nat)
    requires text == "" || text[0] != '\n'
    requires |text| < 4 || text[..4] != "    " || Find(text, "\n", 0).None?
    ensures !LineAt(text, 0, m)
  {
    if m <= |text| {
      var line := text[0..m];
      assert m > 0 ==> line[0] == text[0];
      assert m >= 4 ==> line[..4] == text[..4];
      assert m > 0 && line[m - 1] == '\n' ==> OccursAt(text, "\n", m - 1);
    }
  }

  lemma {:induction false} BreakEndsLine(text: string, i: nat)
    requires |text| >= 4 && text[..4] == "    " && Find(text, "\n", 0) == Some(i)
    ensures IsNoteLine(text[..i + 1])
  {
    assert text[i..i + 1] == "\n" && text[i] == '\n';
    assert forall j :: 0 <= j < 4 ==> text[j] == text[..4][j] == ' ';
    forall j: nat | j < i
      ensures text[j] != '\n'
    {
      assert !OccursAt(text, "\n", j);
      assert text[j..j + 1] == [text[j]];
    }
    assert text[..i + 1][..4] == "    ";
  }

  /** A note starts here: at the beginning of a line, its header, and behind it a line of its body. */
  ghost predicate NoteStartsAt(text: string, i: nat) {
    && (i == 0 || (i <= |text| && text[i - 1] == '\n'))
    && OccursAt(text, "??? note \"In the pipeline file\"\n", i)
    && NoteLineFollows(text, i + |NOTE_HEADER|)
  }

  ghost predicate NoteLineFollows(text: string, start: nat) {
    exists k: nat :: LineAt(text, start, k)
  }

  predicate LineAt(text: string, start: nat, k: nat) {
    start + k <= |text| && IsNoteLine(text[start..start + k])
  }

  lemma {:induction false} NoteAtIff(text: string, i: nat)
    ensures NoteAt(text, i) <==> NoteStartsAt(text, i)
  {
    if OccursAt(text, NOTE_HEADER, i) {
      var start := i + |NOTE_HEADER|;
      var rest := text[start..];
      var k := FirstLineLength(rest);
      forall m: nat
        ensures LineAt(text, start, m) <==> LineAt(rest, 0, m)
      {
        LineBehind(text, start, 0, m);
      }
      if k > 0 {
        assert rest[0..k] == rest[..k];
        assert LineAt(rest, 0, k) && LineAt(text, start, k);
      }
    }
  }

  ghost predicate NoNoteBetween(text: string, from: nat, to: nat) {
    forall i: nat :: from <= i < to ==> !NoteAt(text, i)
  }

  /** Nothing is found only where there is no note. */
  lemma {:induction false} NoNoteIsMissed(text: string, from: nat)
    requires FindNote(text, from).None?
    ensures NoNoteBetween(text, from, |text| + 1)
    decreases |text| - from
  {
    if from < |text| {
      NoNoteIsMissed(text, from + 1);
    }
  }

  /** The first note of the text is found, and its body behind its header. */
  lemma {:induction false} FirstNoteIsFound(text: string, from: nat) returns (i: nat)
    requires FindNote(text, from).Some?
    ensures FoundAt(text, from, i)
    ensures FindNote(text, from) == Some((i + |NOTE_HEADER|, BodyEnd(text, i + |NOTE_HEADER|)))
    decreases |text| - from
  {
    if NoteAt(text, from) {
      i := from;
    } else {
      i := FirstNoteIsFound(text, from + 1);
      FoundLater(text, from, i);
    }
  }

  ghost predicate FoundAt(text: string, from: nat, i: nat) {
    NoteAt(text, i) && NoNoteBetween(text, from, i)
  }

  lemma {:induction false} FoundLater(text: string, from: nat, i: nat)
    requires !NoteAt(text, from) && FoundAt(text, from + 1, i)
    ensures FoundAt(text, from, i)
  {
  }

  /** How long the text is without its trailing line breaks. */
  function StrippedLength(text: string): (n: nat)
    ensures n <= |text| && forall i :: n <= i < |text| ==> text[i] == '\n'
    ensures n > 0 ==> text[n - 1] != '\n'
  {
    if text == "" || text[|text| - 1] != '\n' then |text| else StrippedLength(text[..|text| - 1])
  }

  // ------------------------------------------------------------ the page

  datatype PageError = EndMissing | NoNote

  /** Where the old block begins and ends, or where the new one goes. */
  datatype Place = Replaces(start: nat, end: nat) | InsertsAt(i: nat)

  function PlaceFor(text: string): (place: Result<Place, PageError>)
    ensures place.Success? && place.value.Replaces? ==> place.value.start <= place.value.end <= |text|
    ensures place.Success? && place.value.InsertsAt? ==> 0 < place.value.i <= |text|
  {
    var start := Find(text, START_MARK, 0);
    if start.Some? then
      var end := Find(text, END_LINE, start.value);
      if end.None? then Failure(EndMissing) else Success(Replaces(start.value, end.value + |END_LINE|))
    else
      var note := FindNote(text, 0);
      if note.None? then Failure(NoNote)
      else
        var body := text[note.value.0..note.value.1];
        assert body[|body| - 1] == '\n';
        Success(InsertsAt(note.value.0 + StrippedLength(body) + 1))
  }

  /** The page with its table replaced, or added at its note's end. */
  function PageWithTable(text: string, rows: seq<Row>): Result<string, PageError> {
    WithBlock(text, Block(rows))
  }

  function WithBlock(text: string, block: string): Result<string, PageError> {
    var place := PlaceFor(text);
    if place.Failure? then Failure(place.error)
    else match place.value
      case Replaces(start, end) => Success(text[..start] + block + text[end..])
      case InsertsAt(i) => Success(text[..i] + "\n" + block + text[i..])
  }

  // ------------------------------------------------------------ the end mark closes the block

  predicate EndsWithMark(line: string) {
    |INDENT + END| <= |line| && line[|line| - |INDENT + END|..] == INDENT + END
  }

  lemma {:induction false} MarksHoldNoLineBreak()
    ensures '\n' !in INDENT + END && '\n' !in START_MARK
    ensures END_LINE[..|INDENT + END|] == INDENT + END && END_LINE[|INDENT + END|] == '\n'
  {
  }

  /** An end line that begins within a line ends with it. */
  lemma {:induction false} MarkEndsItsLine(line: string, rest: string, p: nat)
    requires '\n' !in line && p <= |line| && OccursAt(line + "\n" + rest, END_LINE, p)
    ensures EndsWithMark(line)
  {
    var text, size := line + "\n" + rest, |INDENT + END|;
    MarksHoldNoLineBreak();
    assert text[|line|] == '\n' && forall k :: 0 <= k < |line| ==> text[k] == line[k] != '\n';
    assert forall k :: 0 <= k < |END_LINE| ==> text[p + k] == text[p..p + |END_LINE|][k] == END_LINE[k];
    assert forall k :: 0 <= k < size ==> END_LINE[k] == END_LINE[..size][k] != '\n';
    assert text[p + size] == '\n';
    assert |line| == p + size;
    assert line[p..] == END_LINE[..size];
  }

  lemma {:induction false} MarkedLineEnds(line: string)
    ensures EndsWithMark(line) ==> |line| >= 5 && line[|line| - 1] == '>' && line[|line| - 5] == 'd'
  {
    var mark := INDENT + END;
    assert mark[|mark| - 1] == '>' && mark[|mark| - 5] == 'd';
    if EndsWithMark(line) {
      var end := line[|line| - |mark|..];
      assert end[|mark| - 1] == line[|line| - 1] && end[|mark| - 5] == line[|line| - 5];
    }
  }

  lemma {:induction false} ShiftOccurrence(prefix: string, text: string, pattern: string, i: nat)
    ensures OccursAt(prefix + text, pattern, |prefix| + i) <==> OccursAt(text, pattern, i)
  {
    if i + |pattern| <= |text| {
      assert (prefix + text)[|prefix| + i..|prefix| + i + |pattern|] == text[i..i + |pattern|];
    }
  }

  /** The first end line after lines that do not end with the mark is the one that follows them. */
  lemma {:induction false} NotInLines(lines: seq<string>, rest: string, p: nat)
    requires forall l :: l in lines ==> '\n' !in l && !EndsWithMark(Indented(l))
    requires p < |Joined(lines)|
    ensures !OccursAt(Joined(lines) + rest, END_LINE, p)
  {
    var line, tail := Indented(lines[0]), Joined(lines[1..]);
    assert lines[0] in lines && '\n' !in line;
    assert Joined(lines) + rest == line + "\n" + (tail + rest);
    if p <= |line| {
      if OccursAt(line + "\n" + (tail + rest), END_LINE, p) {
        MarkEndsItsLine(line, tail + rest, p);
      }
    } else {
      var q := p - |line| - 1;
      NotInLines(lines[1..], rest, q);
      ShiftOccurrence(line + "\n", tail + rest, END_LINE, q);
    }
  }

  lemma {:induction false} RowsHoldNoMark(rows: seq<Row>, line: string)
    requires (forall r :: r in rows ==> OneLine(r)) && line in TableLines(rows)
    ensures '\n' !in line && !EndsWithMark(Indented(line))
  {
    if line in RowLines(rows) {
      var row := RowOfLine(rows, line);
      RowHoldsNoMark(row);
    } else {
      assert line in HEADING || line == "";
      HeadingHoldsNoMark(line);
    }
  }

  lemma {:induction false} RowHoldsNoMark(row: Row)
    requires OneLine(row)
    ensures '\n' !in RowLine(row) && !EndsWithMark(Indented(RowLine(row)))
  {
    var line := RowLine(row);
    EscapedHoldsNoLineBreak(row.type_);
    EscapedHoldsNoLineBreak(row.description);
    assert Indented(line)[|Indented(line)| - 1] == line[|line| - 1] == '|';
    MarkedLineEnds(Indented(line));
  }

  lemma {:induction false} RowOfLine(rows: seq<Row>, line: string) returns (row: Row)
    requires line in RowLines(rows)
    ensures row in rows && line == RowLine(row)
  {
    var last := |rows| - 1;
    if line == RowLine(rows[last]) {
      row := rows[last];
    } else {
      row := RowOfLine(rows[..last], line);
    }
  }

  lemma {:induction false} EscapedHoldsNoLineBreak(text: string)
    requires '\n' !in text
    ensures '\n' !in Escaped(text)
  {
    if text != "" {
      EscapedHoldsNoLineBreak(text[1..]);
    }
  }

  lemma {:induction false} HeadingHoldsNoMark(line: string)
    requires line in HEADING || line == ""
    ensures '\n' !in line && !EndsWithMark(Indented(line))
  {
    MarkedLineEnds(Indented(line));
    if line == START {
      assert Indented(line)[|Indented(line)| - 5] == line[|line| - 5] == 't';
    } else if line != "" {
      assert Indented(line)[|Indented(line)| - 1] == line[|line| - 1] != '>';
    }
  }

  lemma {:induction false} JoinedAppended(lines: seq<string>, line: string)
    ensures Joined(lines + [line]) == Joined(lines) + (Indented(line) + "\n")
  {
    if lines == [] {
      assert lines + [line] == [line] && [line][1..] == [];
    } else {
      var rest := lines[1..];
      JoinedAppended(rest, line);
      assert (lines + [line])[0] == lines[0] && (lines + [line])[1..] == rest + [line];
    }
  }

  /** Whatever follows the table, no end line begins within it. */
  ghost predicate BeginsNowhereIn(table: string, pattern: string) {
    forall rest, p: nat :: p < |table| ==> !OccursAt(table + rest, pattern, p)
  }

  /** A text from the start mark to an end line, with no end line beginning in between. */
  ghost predicate IsBlock(block: string, table: string, startMark: string, endLine: string) {
    block == table + endLine && startMark <= table && BeginsNowhereIn(table, endLine)
  }

  lemma {:induction false} RenderedIsBlock(rows: seq<Row>)
    requires forall r :: r in rows ==> OneLine(r)
    ensures IsBlock(Block(rows), Joined(TableLines(rows)), START_MARK, END_LINE)
  {
    var lines := TableLines(rows);
    var table := Joined(lines);
    JoinedAppended(lines, END);
    assert Indented(END) + "\n" == END_LINE;
    assert Block(rows) == table + END_LINE;
    assert lines[0] == START && table == Indented(START) + "\n" + Joined(lines[1..]);
    forall l | l in lines
      ensures '\n' !in l && !EndsWithMark(Indented(l))
    {
      RowsHoldNoMark(rows, l);
    }
    forall rest, p: nat | p < |table|
      ensures !OccursAt(table + rest, END_LINE, p)
    {
      NotInLines(lines, rest, p);
    }
  }

  /** A block begins with the start mark, and the first end line from there on is its last line,
      wherever it stands in a page. */
  lemma {:induction false} BlockIsDelimited(
    block: string, table: string, startMark: string, endLine: string, page: string, start: nat)
    requires IsBlock(block, table, startMark, endLine) && OccursAt(page, block, start)
    ensures OccursAt(page, startMark, start) && |block| >= |endLine|
    ensures Find(page, endLine, start) == Some(start + |block| - |endLine|)
  {
    BlockParts(block, table, startMark, endLine);
    WithinOccurrence(page, block, start, table, 0);
    WithinOccurrence(page, block, start, startMark, 0);
    WithinOccurrence(page, block, start, endLine, |table|);
    forall j: nat | start <= j < start + |table|
      ensures !OccursAt(page, endLine, j)
    {
      NotWithin(page, table, start, endLine, j);
    }
    FirstIs(page, endLine, start, start + |table|);
  }

  lemma {:induction false} BlockParts(block: string, table: string, startMark: string, endLine: string)
    requires block == table + endLine && startMark <= table
    ensures OccursAt(block, table, 0) && OccursAt(block, startMark, 0) && OccursAt(block, endLine, |table|)
  {
  }

  lemma {:induction false} WithinOccurrence(page: string, block: string, start: nat, pattern: string, i: nat)
    requires OccursAt(page, block, start) && OccursAt(block, pattern, i)
    ensures OccursAt(page, pattern, start + i)
  {
    forall k | 0 <= k < |pattern|
      ensures page[start + i + k] == pattern[k]
    {
      assert page[start..start + |block|][i + k] == block[i..i + |pattern|][k];
    }
  }

  lemma {:induction false} NotWithin(page: string, table: string, start: nat, pattern: string, j: nat)
    requires OccursAt(page, table, start) && BeginsNowhereIn(table, pattern) && start <= j < start + |table|
    ensures !OccursAt(page, pattern, j)
  {
    var tail := page[start + |table|..];
    assert page[start..] == table + tail;
    assert page == page[..start] + (table + tail);
    ShiftOccurrence(page[..start], table + tail, pattern, j - start);
  }

  // ------------------------------------------------------------ regenerating twice

  /** A page that is a text's beginning up to its first start mark, and then that mark. */
  lemma {:induction false} StartStaysFirst(text: string, page: string, mark: string, start: nat)
    requires Find(text, mark, 0) == Some(start)
    requires OccursAt(page, mark, start) && page[..start] == text[..start]
    ensures Find(page, mark, 0) == Some(start)
  {
    SamePrefix(page, text, start, mark);
    forall j: nat | j < start
      ensures !OccursAt(page, mark, j)
    {
      OccurrenceInPrefix(page, text, start + |mark|, mark, j);
    }
    FirstIs(page, mark, 0, start);
  }

  lemma {:induction false} SamePrefix(a: string, b: string, start: nat, pattern: string)
    requires OccursAt(a, pattern, start) && OccursAt(b, pattern, start) && a[..start] == b[..start]
    ensures a[..start + |pattern|] == b[..start + |pattern|]
  {
    assert a[..start + |pattern|] == a[..start] + a[start..start + |pattern|];
    assert b[..start + |pattern|] == b[..start] + b[start..start + |pattern|];
  }

  lemma {:induction false} OccurrenceInPrefix(a: string, b: string, seen: nat, pattern: string, j: nat)
    requires seen <= |a| && seen <= |b| && a[..seen] == b[..seen] && j + |pattern| <= seen
    ensures OccursAt(a, pattern, j) <==> OccursAt(b, pattern, j)
  {
    assert a[j..j + |pattern|] == a[..seen][j..j + |pattern|];
    assert b[j..j + |pattern|] == b[..seen][j..j + |pattern|];
  }

  /** A page that is the beginning of a text without a start mark, a line break and the mark. */
  lemma {:induction false} InsertedStartIsFirst(text: string, page: string, mark: string, i: nat)
    requires '\n' !in mark && Find(text, mark, 0).None? && i <= |text|
    requires OccursAt(page, mark, i + 1) && page[..i] == text[..i] && page[i] == '\n'
    ensures Find(page, mark, 0) == Some(i + 1)
  {
    forall j: nat | j < i + 1
      ensures !OccursAt(page, mark, j)
    {
      if j + |mark| <= i {
        OccurrenceInPrefix(page, text, i, mark, j);
      } else if j + |mark| <= |page| {
        assert page[j..j + |mark|][i - j] == '\n' != mark[i - j];
      }
    }
    FirstIs(page, mark, 0, i + 1);
  }

  /** Only the last regeneration counts: what an earlier one wrote is replaced, whether it had
      replaced a table or added one, and everything else is as it was at first. */
  lemma {:induction false} LastRegenerationCounts(text: string, rows: seq<Row>, later: seq<Row>)
    requires (forall r :: r in rows ==> OneLine(r)) && PageWithTable(text, rows).Success?
    ensures PageWithTable(PageWithTable(text, rows).value, later) == PageWithTable(text, later)
  {
    var table := Joined(TableLines(rows));
    RenderedIsBlock(rows);
    match PlaceFor(text).value
    case Replaces(start, end) => ReplacedTwice(text, Block(rows), table, Block(later), start, end);
    case InsertsAt(i) => InsertedThenReplaced(text, Block(rows), table, Block(later), i);
  }

  /** So regenerating a page a second time changes nothing. */
  lemma {:induction false} RegeneratingIsIdempotent(text: string, rows: seq<Row>)
    requires (forall r :: r in rows ==> OneLine(r)) && PageWithTable(text, rows).Success?
    ensures var page := PageWithTable(text, rows).value; PageWithTable(page, rows) == Success(page)
  {
    LastRegenerationCounts(text, rows, rows);
  }

  lemma {:induction false} ReplacedTwice(
    text: string, block: string, table: string, later: string, start: nat, end: nat)
    requires IsBlock(block, table, START_MARK, END_LINE) && PlaceFor(text) == Success(Replaces(start, end))
    ensures var page := text[..start] + block + text[end..]; WithBlock(page, later) == WithBlock(text, later)
  {
    var page := text[..start] + block + text[end..];
    Parts(page, text[..start], block, text[end..]);
    ReplacedAgain(text, page, block, table, later, start);
  }

  lemma {:induction false} ReplacedAgain(
    text: string, page: string, block: string, table: string, later: string, start: nat)
    requires IsBlock(block, table, START_MARK, END_LINE) && Find(text, START_MARK, 0) == Some(start)
    requires OccursAt(page, block, start) && page[..start] == text[..start]
    ensures WithBlock(page, later) == Success(page[..start] + later + page[start + |block|..])
  {
    BlockIsDelimited(block, table, START_MARK, END_LINE, page, start);
    StartStaysFirst(text, page, START_MARK, start);
    PlacedOver(page, block, later, start);
  }

  lemma {:induction false} InsertedThenReplaced(text: string, block: string, table: string, later: string, i: nat)
    requires IsBlock(block, table, START_MARK, END_LINE) && PlaceFor(text) == Success(InsertsAt(i))
    ensures var page := text[..i] + "\n" + block + text[i..]; WithBlock(page, later) == WithBlock(text, later)
  {
    var page := text[..i] + "\n" + block + text[i..];
    PartsAfterLineBreak(page, text[..i], block, text[i..]);
    InsertedIsReplaced(text, page, block, table, later, i);
    assert page[..i + 1] == text[..i] + "\n";
  }

  lemma {:induction false} InsertedIsReplaced(
    text: string, page: string, block: string, table: string, later: string, i: nat)
    requires IsBlock(block, table, START_MARK, END_LINE) && Find(text, START_MARK, 0).None? && i <= |text|
    requires OccursAt(page, block, i + 1) && page[i] == '\n' && page[..i] == text[..i]
    ensures WithBlock(page, later) == Success(page[..i + 1] + later + page[i + 1 + |block|..])
  {
    MarksHoldNoLineBreak();
    BlockIsDelimited(block, table, START_MARK, END_LINE, page, i + 1);
    InsertedStartIsFirst(text, page, START_MARK, i);
    PlacedOver(page, block, later, i + 1);
  }

  lemma {:induction false} Parts(page: string, before: string, block: string, rest: string)
    requires page == before + block + rest
    ensures page[..|before|] == before && OccursAt(page, block, |before|) && page[|before| + |block|..] == rest
  {
  }

  lemma {:induction false} PartsAfterLineBreak(page: string, before: string, block: string, rest: string)
    requires page == before + "\n" + block + rest
    ensures page[..|before|] == before && page[|before|] == '\n' && OccursAt(page, block, |before| + 1)
    ensures page[|before| + 1 + |block|..] == rest
  {
  }

  /** A page whose first marks delimit a block has that block replaced. */
  lemma {:induction false} PlacedOver(page: string, block: string, later: string, start: nat)
    requires OccursAt(page, block, start) && |block| >= |END_LINE| && Find(page, START_MARK, 0) == Some(start)
    requires Find(page, END_LINE, start) == Some(start + |block| - |END_LINE|)
    ensures WithBlock(page, later) == Success(page[..start] + later + page[start + |block|..])
  {
    assert PlaceFor(page) == Success(Replaces(start, start + |block|));
  }

  /** A new block goes, after an empty line, behind the last line of the note that is not
      empty, and the whole text is kept around it. */
  lemma {:induction false} WholePageIsKept(text: string, rows: seq<Row>, i: nat)
    requires PlaceFor(text) == Success(InsertsAt(i))
    ensures PageWithTable(text, rows) == Success(text[..i] + "\n" + Block(rows) + text[i..])
    ensures Find(text, START_MARK, 0).None? && text[i - 1] == '\n' && FindNote(text, 0).Some?
    ensures var (bodyStart, bodyEnd) := FindNote(text, 0).value;
      && bodyStart < i <= bodyEnd && (i == bodyStart + 1 || text[i - 2] != '\n')
      && forall j :: i <= j < bodyEnd ==> text[j] == '\n'
  {
    var (bodyStart, bodyEnd) := FindNote(text, 0).value;
    BehindLastFullLine(text, bodyStart, bodyEnd, i);
  }

  lemma {:induction false} BehindLastFullLine(text: string, start: nat, end: nat, i: nat)
    requires start < end <= |text| && text[end - 1] == '\n' && i == start + StrippedLength(text[start..end]) + 1
    ensures start < i <= end && text[i - 1] == '\n' && (i == start + 1 || text[i - 2] != '\n')
    ensures forall j :: i <= j < end ==> text[j] == '\n'
  {
    var body := text[start..end];
    assert forall j :: start <= j < end ==> text[j] == body[j - start];
  }
}
