/** The ledger of reviewed line ranges (`_parse_ranges` and the coverage totals of
    `build_inventory`). */
module RangeLedger {
  import opened Decimals
  import opened Wrappers

  datatype Range = Range(start: nat, end: nat)

  datatype RangeError = Empty | Malformed(item: string) | OutOfBounds(item: string) | Unsorted | CoversAll

  // ------------------------------------------------------------ one range's text

  function Dashes(item: string): nat {
    if item == "" then 0 else (if item[0] == '-' then 1 else 0) + Dashes(item[1..])
  }

  function FirstDash(item: string): (i: nat)
    ensures i <= |item| && (i < |item| ==> item[i] == '-')
    ensures Dashes(item) > 0 ==> i < |item|
    ensures forall j :: 0 <= j < i ==> item[j] != '-'
  {
    if item == "" || item[0] == '-' then 0 else 1 + FirstDash(item[1..])
  }

  /** The two numbers around the one dash of the text. */
  function ParseItem(item: string): Option<(nat, nat)> {
    if Dashes(item) != 1 then None
    else
      var i := FirstDash(item);
      var startText, endText := item[..i], item[i + 1..];
      if startText == "" || endText == "" || !AllDigits(startText) || !AllDigits(endText) then None
      else Some((Value(startText), Value(endText)))
  }

  lemma {:induction false} DigitsHoldNoDash(text: string)
    requires AllDigits(text)
    ensures Dashes(text) == 0
  {
    if text != "" {
      assert IsDigit(text[0]) && forall i :: 0 <= i < |text[1..]| ==> text[1..][i] == text[i + 1];
      DigitsHoldNoDash(text[1..]);
    }
  }

  lemma {:induction false} DashAfterDigits(head: string, tail: string)
    requires AllDigits(head) && AllDigits(tail)
    ensures Dashes(head + "-" + tail) == 1 && FirstDash(head + "-" + tail) == |head|
  {
    if head == "" {
      assert head + "-" + tail == "-" + tail && ("-" + tail)[1..] == tail;
      DigitsHoldNoDash(tail);
    } else {
      assert IsDigit(head[0]) && forall i :: 0 <= i < |head[1..]| ==> head[1..][i] == head[i + 1];
      DashAfterDigits(head[1..], tail);
      assert (head + "-" + tail)[1..] == head[1..] + "-" + tail;
    }
  }

  /** A printed range reads back. */
  lemma {:induction false} PrintedRangeReadsBack(start: nat, end: nat)
    ensures ParseItem(Numeral(start) + "-" + Numeral(end)) == Some((start, end))
  {
    var item := Numeral(start) + "-" + Numeral(end);
    DashAfterDigits(Numeral(start), Numeral(end));
    assert item[..|Numeral(start)|] == Numeral(start) && item[|Numeral(start)| + 1..] == Numeral(end);
    ValueOfNumeral(start);
    ValueOfNumeral(end);
  }

  /** An item is read exactly when it is two non-empty runs of digits around a dash. */
  lemma {:induction false} ItemReadsIff(item: string)
    ensures ParseItem(item).Some? <==>
      exists head, tail :: head != "" && tail != "" && AllDigits(head) && AllDigits(tail) && item == head + "-" + tail
    ensures forall head, tail ::
      head != "" && tail != "" && AllDigits(head) && AllDigits(tail) && item == head + "-" + tail ==>
        ParseItem(item) == Some((Value(head), Value(tail)))
  {
    forall head, tail | head != "" && tail != "" && AllDigits(head) && AllDigits(tail) && item == head + "-" + tail
      ensures ParseItem(item) == Some((Value(head), Value(tail)))
    {
      DashAfterDigits(head, tail);
      assert item[..|head|] == head && item[|head| + 1..] == tail;
    }
    if ParseItem(item).Some? {
      var i := FirstDash(item);
      assert item == item[..i] + "-" + item[i + 1..];
    }
  }

  // ------------------------------------------------------------ a file's ranges

  predicate InBounds(range: Range, lineCount: nat) {
    1 <= range.start <= range.end <= lineCount
  }

  predicate LexicographicallyAtMost(a: Range, b: Range) {
    a.start < b.start || (a.start == b.start && a.end <= b.end)
  }

  /** The order of pairs: total, by the start first, and the same pair only both ways. */
  lemma {:induction false} OrderOfPairs(a: Range, b: Range)
    ensures LexicographicallyAtMost(a, b) || LexicographicallyAtMost(b, a)
    ensures LexicographicallyAtMost(a, b) && LexicographicallyAtMost(b, a) ==> a == b
    ensures a.start < b.start ==> !LexicographicallyAtMost(b, a)
  {
  }

  predicate IsSorted(ranges: seq<Range>) {
    forall i, j :: 0 <= i < j < |ranges| ==> LexicographicallyAtMost(ranges[i], ranges[j])
  }

  predicate AdjacentOverlap(ranges: seq<Range>) {
    exists i :: 0 <= i < |ranges| - 1 && ranges[i].end >= ranges[i + 1].start
  }

  function Total(ranges: seq<Range>): int {
    if ranges == [] then 0
    else Total(ranges[..|ranges| - 1]) + (ranges[|ranges| - 1].end - ranges[|ranges| - 1].start + 1)
  }

  /** Every earlier range ends before every later one starts. */
  ghost predicate Apart(ranges: seq<Range>) {
    forall i, j :: 0 <= i < j < |ranges| ==> ranges[i].end < ranges[j].start
  }

  predicate Contains(range: Range, line: nat) {
    range.start <= line <= range.end
  }

  predicate IsCovered(ranges: seq<Range>, line: nat) {
    exists i :: 0 <= i < |ranges| && Contains(ranges[i], line)
  }

  /** The lines a file's ranges cover. */
  function Covered(ranges: seq<Range>, lineCount: nat): set<nat> {
    set line: nat | line <= lineCount && IsCovered(ranges, line)
  }

  function LinesOf(start: nat, end: nat): set<nat> {
    set line: nat | line <= end && Contains(Range(start, end), line)
  }

  function AllLines(lineCount: nat): set<nat> {
    LinesOf(1, lineCount)
  }

  /** What is accepted as the ranges of a partly reviewed file. */
  ghost predicate Accepted(ranges: seq<Range>, lineCount: nat) {
    && ranges != [] && (forall i :: 0 <= i < |ranges| ==> 1 <= ranges[i].start <= ranges[i].end <= lineCount)
    && Apart(ranges) && Covered(ranges, lineCount) != AllLines(lineCount)
  }

  method ParseRanges(value: seq<string>, lineCount: nat) returns (r: Result<seq<Range>, RangeError>)
    ensures r.Success? ==> Accepted(r.value, lineCount) && |r.value| == |value|
    ensures r.Success? ==> forall i :: 0 <= i < |value| ==> ParseItem(value[i]) == Some((r.value[i].start, r.value[i].end))
    ensures r.Success? <==> exists ranges ::
      Reads(value, ranges) && Accepted(ranges, lineCount)
  {
    if value == [] {
      return Failure(Empty);
    }
    var ranges: seq<Range> := [];
    for i := 0 to |value|
      invariant |ranges| == i && Reads(value[..i], ranges)
      invariant forall j :: 0 <= j < i ==> InBounds(ranges[j], lineCount)
    {
      var item := ParseItem(value[i]);
      if item.None? {
        return Failure(Malformed(value[i]));
      }
      var range := Range(item.value.0, item.value.1);
      if !InBounds(range, lineCount) {
        return Failure(OutOfBounds(value[i]));
      }
      ranges := ranges + [range];
    }
    assert value[..|value|] == value;
    forall other | Reads(value, other)
      ensures other == ranges
    {
      ReadsOneWay(value, ranges, other);
    }
    AdjacentMeansApart(ranges, lineCount);
    if !IsSorted(ranges) || AdjacentOverlap(ranges) {
      return Failure(Unsorted);
    }
    TotalIsCovered(ranges, lineCount);
    FullMeansAll(ranges, lineCount);
    if Total(ranges) == lineCount {
      return Failure(CoversAll);
    }
    return Success(ranges);
  }

  ghost predicate Reads(value: seq<string>, ranges: seq<Range>) {
    && |ranges| == |value|
    && forall i :: 0 <= i < |value| ==> ParseItem(value[i]) == Some((ranges[i].start, ranges[i].end))
  }

  lemma {:induction false} ReadsOneWay(value: seq<string>, a: seq<Range>, b: seq<Range>)
    requires Reads(value, a) && Reads(value, b)
    ensures a == b
  {
    forall i | 0 <= i < |value|
      ensures a[i] == b[i]
    {
      assert ParseItem(value[i]) == Some((a[i].start, a[i].end)) == Some((b[i].start, b[i].end));
    }
  }

  /** The checks of neighbouring ranges accept exactly the ranges that lie apart. */
  lemma {:induction false} AdjacentMeansApart(ranges: seq<Range>, lineCount: nat)
    requires forall i :: 0 <= i < |ranges| ==> InBounds(ranges[i], lineCount)
    ensures IsSorted(ranges) && !AdjacentOverlap(ranges) <==> Apart(ranges)
  {
    if !AdjacentOverlap(ranges) {
      forall i, j | 0 <= i < j < |ranges|
        ensures ranges[i].end < ranges[j].start
      {
        NeighboursApart(ranges, lineCount, i, j);
      }
    }
  }

  lemma {:induction false} NeighboursApart(ranges: seq<Range>, lineCount: nat, i: nat, j: nat)
    requires forall k :: 0 <= k < |ranges| ==> InBounds(ranges[k], lineCount)
    requires !AdjacentOverlap(ranges) && i < j < |ranges|
    ensures ranges[i].end < ranges[j].start
  {
    assert !(ranges[j - 1].end >= ranges[(j - 1) + 1].start);
    if i + 1 < j {
      NeighboursApart(ranges, lineCount, i, j - 1);
    }
  }

  /** The summed lengths of ranges that lie apart are the number of lines they cover. */
  lemma {:induction false} TotalIsCovered(ranges: seq<Range>, lineCount: nat)
    requires Apart(ranges) && forall i :: 0 <= i < |ranges| ==> InBounds(ranges[i], lineCount)
    ensures Total(ranges) == |Covered(ranges, lineCount)|
  {
    if ranges == [] {
      assert Covered(ranges, lineCount) == {};
    } else {
      var rest, last := ranges[..|ranges| - 1], ranges[|ranges| - 1];
      assert ranges == rest + [last];
      TotalIsCovered(rest, lineCount);
      CoverOneMore(rest, last, lineCount);
    }
  }

  lemma {:induction false} CoverOneMore(rest: seq<Range>, last: Range, lineCount: nat)
    requires Apart(rest + [last]) && InBounds(last, lineCount)
    requires Total(rest) == |Covered(rest, lineCount)|
    ensures Total(rest + [last]) == |Covered(rest + [last], lineCount)|
  {
    assert (rest + [last])[..|rest|] == rest;
    CountLines(last.start, last.end);
    CoveredOneMore(rest, last, lineCount);
    LaterLinesAreNew(rest, last, lineCount);
    DisjointSizes(Covered(rest, lineCount), LinesOf(last.start, last.end));
  }

  lemma {:induction false} LaterLinesAreNew(ranges: seq<Range>, last: Range, lineCount: nat)
    requires Apart(ranges + [last])
    ensures Covered(ranges, lineCount) !! LinesOf(last.start, last.end)
  {
    var more := ranges + [last];
    assert more[|ranges|] == last;
    assert forall i :: 0 <= i < |ranges| ==> more[i] == ranges[i] && ranges[i].end < last.start;
  }

  lemma {:induction false} DisjointSizes(a: set<nat>, b: set<nat>)
    requires a !! b
    ensures |a + b| == |a| + |b|
  {
  }

  lemma {:induction false} CoveredOneMore(ranges: seq<Range>, last: Range, lineCount: nat)
    requires InBounds(last, lineCount)
    ensures Covered(ranges + [last], lineCount) == Covered(ranges, lineCount) + LinesOf(last.start, last.end)
  {
    var more := ranges + [last];
    assert more[|ranges|] == last && forall i :: 0 <= i < |ranges| ==> more[i] == ranges[i];
    forall line: nat
      ensures IsCovered(more, line) <==> IsCovered(ranges, line) || Contains(last, line)
    {
      if IsCovered(ranges, line) {
        var i :| 0 <= i < |ranges| && Contains(ranges[i], line);
        assert Contains(more[i], line);
      }
    }
  }

  lemma {:induction false} CountLines(start: nat, end: nat)
    requires start <= end + 1
    ensures |LinesOf(start, end)| == end + 1 - start
    decreases end + 1 - start
  {
    if start == end + 1 {
      assert LinesOf(start, end) == {};
    } else {
      CountLines(start + 1, end);
      assert LinesOf(start, end) == {start} + LinesOf(start + 1, end);
    }
  }

  /** As many covered lines as the file has means all of them. */
  lemma {:induction false} FullMeansAll(ranges: seq<Range>, lineCount: nat)
    requires forall i :: 0 <= i < |ranges| ==> InBounds(ranges[i], lineCount)
    ensures |Covered(ranges, lineCount)| <= lineCount
    ensures |Covered(ranges, lineCount)| == lineCount <==> Covered(ranges, lineCount) == AllLines(lineCount)
  {
    CountLines(1, lineCount);
    assert Covered(ranges, lineCount) <= AllLines(lineCount);
    var missing := AllLines(lineCount) - Covered(ranges, lineCount);
    assert |missing| + |Covered(ranges, lineCount)| == lineCount;
    assert AllLines(lineCount) == missing + Covered(ranges, lineCount);
  }

  // ------------------------------------------------------------ the corpus totals

  datatype State = Full | Partial(ranges: seq<Range>) | Mechanical | Unread

  datatype Record = Record(lineCount: nat, state: State)

  ghost predicate ValidRecord(record: Record) {
    record.state.Partial? ==> Accepted(record.state.ranges, record.lineCount)
  }

  function Reviewed(record: Record): int {
    match record.state
    case Full => record.lineCount
    case Partial(ranges) => Total(ranges)
    case Mechanical | Unread => 0
  }

  predicate SameState(a: State, b: State) {
    (a.Full? && b.Full?) || (a.Partial? && b.Partial?) || (a.Mechanical? && b.Mechanical?) || (a.Unread? && b.Unread?)
  }

  /** The reviewed lines of the records of one state. */
  function ReviewedIn(records: seq<Record>, state: State): int {
    if records == [] then 0
    else
      var last := records[|records| - 1];
      ReviewedIn(records[..|records| - 1], state) + if SameState(last.state, state) then Reviewed(last) else 0
  }

  function CorpusLines(records: seq<Record>): int {
    if records == [] then 0 else CorpusLines(records[..|records| - 1]) + records[|records| - 1].lineCount
  }

  /** A record counts in its own state and in no other. */
  lemma {:induction false} CountsInItsState(records: seq<Record>, record: Record, state: State)
    ensures ReviewedIn(records + [record], state) - ReviewedIn(records, state) ==
      if (record.state.Full? <==> state.Full?) && (record.state.Partial? <==> state.Partial?)
         && (record.state.Mechanical? <==> state.Mechanical?)
      then Reviewed(record) else 0
  {
    assert (records + [record])[..|records|] == records;
  }

  /** A file's reviewed lines are at most its lines, and all of them only when it is full. */
  lemma {:induction false} ReviewedAtMostAll(record: Record)
    requires ValidRecord(record) && record.lineCount > 0
    ensures 0 <= Reviewed(record) <= record.lineCount
    ensures Reviewed(record) == record.lineCount <==> record.state.Full?
  {
    if record.state.Partial? {
      TotalIsCovered(record.state.ranges, record.lineCount);
      FullMeansAll(record.state.ranges, record.lineCount);
    }
  }

  /** Over non-empty files the reviewed lines of all states reach the corpus total exactly when
      every file is marked full. */
  lemma {:induction false} AllReviewedIffAllFull(records: seq<Record>)
    requires forall r :: r in records ==> ValidRecord(r) && r.lineCount > 0
    ensures var reviewed := ReviewedIn(records, Full) + ReviewedIn(records, Mechanical)
                            + ReviewedIn(records, Partial([])) + ReviewedIn(records, Unread);
      && 0 <= reviewed <= CorpusLines(records)
      && (reviewed == CorpusLines(records) <==> forall r :: r in records ==> r.state.Full?)
  {
    if records != [] {
      var rest, last := records[..|records| - 1], records[|records| - 1];
      AllReviewedIffAllFull(rest);
      ReviewedAtMostAll(last);
      assert records == rest + [last];
    }
  }
}
