/** Removing JSONC comments without changing string literals (`_strip_json_comments`). */
module JsonComments {
  import opened Wrappers

  /** Where the stripper is in the text.  It looks one character ahead. */
  datatype Scan = Code | InString(escaped: bool) | InLine | InBlock

  predicate IsNewline(c: char) {
    c == '\r' || c == '\n'
  }

  function Newlines(text: string): string {
    if text == "" then ""
    else (if text[0] == '\r' || text[0] == '\n' then [text[0]] else "") + Newlines(text[1..])
  }

  function Prefixed(prefix: string, rest: Option<string>): Option<string> {
    if rest.None? then None else Some(prefix + rest.value)
  }

  /** What is kept of the text from here on; nothing when a block comment is never closed. */
  function Strip(text: string, scan: Scan): Option<string>
    decreases |text|, if scan.InLine? then 1 else 0
  {
    match scan
    case InString(escaped) =>
      if text == "" then Some("")
      else Prefixed([text[0]], Strip(text[1..], AfterStringChar(text[0], escaped)))
    case InLine =>
      if text == "" || IsNewline(text[0]) then Strip(text, Code) else Strip(text[1..], InLine)
    case InBlock =>
      if |text| < 2 then None
      else if text[..2] == "*/" then Strip(text[2..], Code)
      else Prefixed(if IsNewline(text[0]) then [text[0]] else "", Strip(text[1..], InBlock))
    case Code =>
      if text == "" then Some("")
      else if text[0] == '"' then Prefixed([text[0]], Strip(text[1..], InString(false)))
      else if OpensLine(text) then Strip(text[2..], InLine)
      else if OpensBlock(text) then Strip(text[2..], InBlock)
      else Prefixed([text[0]], Strip(text[1..], Code))
  }

  function AfterStringChar(c: char, escaped: bool): Scan {
    if escaped then InString(false)
    else if c == '\\' then InString(true)
    else if c == '"' then Code
    else InString(false)
  }

  predicate OpensLine(text: string) {
    |text| > 1 && text[0] == '/' && text[1] == '/'
  }

  predicate OpensBlock(text: string) {
    |text| > 1 && text[0] == '/' && text[1] == '*'
  }

  lemma {:induction false} PrefixedTwice(a: string, b: string, rest: Option<string>)
    ensures Prefixed(a, Prefixed(b, rest)) == Prefixed(a + b, rest)
    ensures Prefixed("", rest) == rest
  {
    if rest.Some? {
      assert a + (b + rest.value) == (a + b) + rest.value && "" + rest.value == rest.value;
    }
  }

  // ------------------------------------------------------------ the loop

  method StripJsonComments(text: string) returns (r: Option<string>)
    ensures r == Strip(text, Code)
  {
    var output := "";
    var index, inString, escaped := 0, false, false;
    PrefixedTwice("", "", Strip(text, Code));
    assert text[0..] == text;
    while index < |text|
      invariant 0 <= index <= |text|
      invariant Prefixed(output, Strip(text[index..], if inString then InString(escaped) else Code)) == Strip(text, Code)
    {
      var c := text[index];
      var rest := text[index..];
      assert rest[1..] == text[index + 1..];
      if inString {
        PrefixedTwice(output, [c], Strip(rest[1..], AfterStringChar(c, escaped)));
        output := output + [c];
        if escaped {
          escaped := false;
        } else if c == '\\' {
          escaped := true;
        } else if c == '"' {
          inString := false;
        }
        index := index + 1;
        continue;
      }
      if c == '"' {
        PrefixedTwice(output, [c], Strip(rest[1..], InString(false)));
        inString, escaped := true, false;
        output := output + [c];
        index := index + 1;
        continue;
      }
      if OpensLine(rest) {
        assert rest[2..] == text[index + 2..];
        index := SkipLineComment(text, index + 2);
        continue;
      }
      if OpensBlock(rest) {
        assert rest[2..] == text[index + 2..];
        var end, newlines := SkipBlockComment(text, index + 2);
        if end.None? {
          return None;
        }
        PrefixedTwice(output, newlines, Strip(text[end.value..], Code));
        output, index := output + newlines, end.value;
        continue;
      }
      PrefixedTwice(output, [c], Strip(rest[1..], Code));
      output := output + [c];
      index := index + 1;
    }
    assert text[index..] == "" && output + "" == output;
    return Some(output);
  }

  /** Skips to the line break that ends a line comment, or to the end of the text. */
  method SkipLineComment(text: string, start: nat) returns (index: nat)
    requires start <= |text|
    ensures start <= index <= |text| && Strip(text[start..], InLine) == Strip(text[index..], Code)
  {
    index := start;
    while index < |text| && !IsNewline(text[index])
      invariant start <= index <= |text|
      invariant Strip(text[start..], InLine) == Strip(text[index..], InLine)
    {
      assert text[index..][1..] == text[index + 1..];
      index := index + 1;
    }
  }

  /** Skips behind the end of a block comment, keeping its line breaks; nothing when it is
      never closed. */
  method SkipBlockComment(text: string, start: nat) returns (end: Option<nat>, newlines: string)
    requires start <= |text|
    ensures end.None? ==> Strip(text[start..], InBlock) == None
    ensures end.Some? ==> start < end.value <= |text|
    ensures end.Some? ==> Strip(text[start..], InBlock) == Prefixed(newlines, Strip(text[end.value..], Code))
  {
    var index := start;
    newlines := "";
    PrefixedTwice("", "", Strip(text[start..], InBlock));
    while index + 1 < |text| && text[index..index + 2] != "*/"
      invariant start <= index <= |text|
      invariant Strip(text[start..], InBlock) == Prefixed(newlines, Strip(text[index..], InBlock))
    {
      var here := text[index..];
      var kept := if IsNewline(text[index]) then [text[index]] else "";
      assert here[..2] == text[index..index + 2] && here[1..] == text[index + 1..];
      PrefixedTwice(newlines, kept, Strip(here[1..], InBlock));
      newlines := newlines + kept;
      index := index + 1;
    }
    if index + 1 >= |text| {
      return None, newlines;
    }
    var close := text[index..];
    assert close[..2] == text[index..index + 2] && close[2..] == text[index + 2..];
    return Some(index + 2), newlines;
  }

  // ------------------------------------------------------------ an independent reading of the text

  /** A reader without look-ahead: what the text is after each character. */
  datatype Reading = Plain | Slash | Quoted | Escaped | LineComment | BlockComment | BlockStar

  function Read(reading: Reading, c: char): Reading {
    match reading
    case Plain => if c == '"' then Quoted else if c == '/' then Slash else Plain
    case Slash => if c == '/' then LineComment else if c == '*' then BlockComment else if c == '"' then Quoted else Plain
    case Quoted => if c == '\\' then Escaped else if c == '"' then Plain else Quoted
    case Escaped => Quoted
    case LineComment => if c == '\r' || c == '\n' then Plain else LineComment
    case BlockComment => if c == '*' then BlockStar else BlockComment
    case BlockStar => if c == '/' then Plain else if c == '*' then BlockStar else BlockComment
  }

  function ReadAll(reading: Reading, text: string): Reading
    decreases |text|
  {
    if text == "" then reading else ReadAll(Read(reading, text[0]), text[1..])
  }

  function ReadingOf(scan: Scan): Reading {
    match scan
    case Code => Plain
    case InString(escaped) => if escaped then Escaped else Quoted
    case InLine => LineComment
    case InBlock => BlockComment
  }

  /** Stripping is refused exactly for a text that ends inside a block comment, one opened
      outside every string literal. */
  lemma {:induction false} RefusedIffBlockCommentUnclosed(text: string, scan: Scan)
    ensures Strip(text, scan).None? <==> ReadAll(ReadingOf(scan), text) in {BlockComment, BlockStar}
    decreases |text|, if scan.InLine? then 1 else 0
  {
    match scan
    case InString(escaped) =>
      if text != "" {
        RefusedIffBlockCommentUnclosed(text[1..], AfterStringChar(text[0], escaped));
      }
    case InLine =>
      if text == "" {
      } else if IsNewline(text[0]) {
        RefusedIffBlockCommentUnclosed(text, Code);
      } else {
        RefusedIffBlockCommentUnclosed(text[1..], InLine);
      }
    case InBlock =>
      if |text| >= 2 {
        SecondCharacter(BlockComment, text);
        if text[..2] == "*/" {
          RefusedIffBlockCommentUnclosed(text[2..], Code);
        } else {
          RefusedIffBlockCommentUnclosed(text[1..], InBlock);
        }
      }
    case Code =>
      if text == "" {
      } else if text[0] == '"' {
        RefusedIffBlockCommentUnclosed(text[1..], InString(false));
      } else if |text| == 1 {
      } else {
        SecondCharacter(Plain, text);
        if OpensLine(text) {
          RefusedIffBlockCommentUnclosed(text[2..], InLine);
        } else if OpensBlock(text) {
          RefusedIffBlockCommentUnclosed(text[2..], InBlock);
        } else {
          RefusedIffBlockCommentUnclosed(text[1..], Code);
        }
      }
  }

  lemma {:induction false} SecondCharacter(reading: Reading, text: string)
    requires |text| >= 2
    ensures text[1..][0] == text[1] && text[1..][1..] == text[2..]
    ensures ReadAll(reading, text) == ReadAll(Read(Read(reading, text[0]), text[1]), text[2..])
    ensures forall r :: ReadAll(r, text[1..]) == ReadAll(Read(r, text[1]), text[2..])
  {
    assert text[1..][0] == text[1] && text[1..][1..] == text[2..];
  }

  // ------------------------------------------------------------ no comment is left

  /** Reading on from here, no comment is ever entered. */
  predicate CommentFree(reading: Reading, text: string)
    decreases |text|
  {
    && reading !in {LineComment, BlockComment, BlockStar}
    && (text != "" ==> CommentFree(Read(reading, text[0]), text[1..]))
  }

  lemma {:induction false} StrippedIsCommentFree(text: string, scan: Scan)
    requires Strip(text, scan).Some?
    ensures CommentFree(if scan.InString? then ReadingOf(scan) else Plain, Strip(text, scan).value)
    decreases |text|, if scan.InLine? then 1 else 0
  {
    var kept := Strip(text, scan).value;
    match scan
    case InString(escaped) =>
      if text != "" {
        StrippedIsCommentFree(text[1..], AfterStringChar(text[0], escaped));
        assert kept[1..] == Strip(text[1..], AfterStringChar(text[0], escaped)).value;
      }
    case InLine =>
      if text == "" || IsNewline(text[0]) {
        StrippedIsCommentFree(text, Code);
      } else {
        StrippedIsCommentFree(text[1..], InLine);
      }
    case InBlock =>
      if text[..2] == "*/" {
        StrippedIsCommentFree(text[2..], Code);
      } else {
        StrippedIsCommentFree(text[1..], InBlock);
        if IsNewline(text[0]) {
          assert kept[1..] == Strip(text[1..], InBlock).value;
        } else {
          assert kept == Strip(text[1..], InBlock).value;
        }
      }
    case Code =>
      if text == "" {
      } else if text[0] == '"' {
        StrippedIsCommentFree(text[1..], InString(false));
        assert kept[1..] == Strip(text[1..], InString(false)).value;
      } else if OpensLine(text) {
        StrippedIsCommentFree(text[2..], InLine);
      } else if OpensBlock(text) {
        StrippedIsCommentFree(text[2..], InBlock);
      } else {
        StrippedIsCommentFree(text[1..], Code);
        assert kept[1..] == Strip(text[1..], Code).value;
        if text[0] == '/' {
          FirstCharacterKept(text[1..]);
        }
      }
  }

  /** A character that cannot open a comment is the first one kept, so a kept `/` never meets
      a later character across a removed comment. */
  lemma {:induction false} FirstCharacterKept(text: string)
    requires Strip(text, Code).Some? && (text != "" ==> text[0] != '/')
    ensures var kept := Strip(text, Code).value; if text == "" then kept == "" else kept != "" && kept[0] == text[0]
  {
  }

  lemma {:induction false} CommentFreeIsUnchanged(text: string, scan: Scan)
    requires scan.Code? || scan.InString?
    requires CommentFree(ReadingOf(scan), text)
    ensures Strip(text, scan) == Some(text)
    decreases |text|
  {
    if text != "" {
      assert text == [text[0]] + text[1..];
      if scan.InString? {
        CommentFreeIsUnchanged(text[1..], AfterStringChar(text[0], scan.escaped));
      } else if text[0] == '"' {
        CommentFreeIsUnchanged(text[1..], InString(false));
      } else if |text| == 1 {
        assert text[1..] == "";
      } else {
        SecondCharacter(Plain, text);
        assert CommentFree(Read(Read(Plain, text[0]), text[1]), text[2..]);
        CommentFreeIsUnchanged(text[1..], Code);
      }
    }
  }

  /** Stripping leaves a text as it is exactly when it holds no comment. */
  lemma {:induction false} UnchangedIffCommentFree(text: string)
    ensures Strip(text, Code) == Some(text) <==> CommentFree(Plain, text)
  {
    if Strip(text, Code) == Some(text) {
      StrippedIsCommentFree(text, Code);
    }
    if CommentFree(Plain, text) {
      CommentFreeIsUnchanged(text, Code);
    }
  }

  predicate OutsideStrings(text: string, i: nat)
    requires i <= |text|
  {
    ReadAll(Plain, text[..i]) !in {Quoted, Escaped}
  }

  /** What is kept opens no line or block comment outside its string literals, and stripping it
      again changes nothing. */
  lemma {:induction false} StrippingIsCompleteAndIdempotent(text: string)
    requires Strip(text, Code).Some?
    ensures var kept := Strip(text, Code).value;
      && Strip(kept, Code) == Some(kept)
      && forall i: nat :: i + 1 < |kept| && OutsideStrings(kept, i) && kept[i] == '/' ==> kept[i + 1] !in {'/', '*'}
  {
    var kept := Strip(text, Code).value;
    StrippedIsCommentFree(text, Code);
    UnchangedIffCommentFree(kept);
    forall i: nat | i + 1 < |kept| && OutsideStrings(kept, i) && kept[i] == '/'
      ensures kept[i + 1] !in {'/', '*'}
    {
      NoCommentOpensAt(kept, i);
    }
  }

  lemma {:induction false} NoCommentOpensAt(text: string, i: nat)
    requires CommentFree(Plain, text) && i + 1 < |text| && OutsideStrings(text, i) && text[i] == '/'
    ensures text[i + 1] !in {'/', '*'}
  {
    CommentFreeAt(Plain, text, i);
    CommentFreeAt(Plain, text, i + 1);
    CommentFreeAt(Plain, text, i + 2);
    ReadOneMore(Plain, text, i);
    ReadOneMore(Plain, text, i + 1);
  }

  lemma {:induction false} CommentFreeAt(reading: Reading, text: string, i: nat)
    requires CommentFree(reading, text) && i <= |text|
    ensures ReadAll(reading, text[..i]) !in {LineComment, BlockComment, BlockStar}
    decreases i
  {
    if i > 0 {
      CommentFreeAt(Read(reading, text[0]), text[1..], i - 1);
      assert text[..i][1..] == text[1..][..i - 1];
    }
  }

  lemma {:induction false} ReadOneMore(reading: Reading, text: string, i: nat)
    requires i < |text|
    ensures ReadAll(reading, text[..i + 1]) == Read(ReadAll(reading, text[..i]), text[i])
    decreases i
  {
    if i > 0 {
      ReadOneMore(Read(reading, text[0]), text[1..], i - 1);
      assert text[..i + 1][1..] == text[1..][..i] && text[..i][1..] == text[1..][..i - 1];
    }
  }

  // ------------------------------------------------------------ line numbers survive

  lemma {:induction false} NewlinesSurvive(text: string, scan: Scan)
    requires Strip(text, scan).Some?
    ensures Newlines(Strip(text, scan).value) == Newlines(text)
    decreases |text|, if scan.InLine? then 1 else 0
  {
    var kept := Strip(text, scan).value;
    match scan
    case InString(escaped) =>
      if text != "" {
        NewlinesSurvive(text[1..], AfterStringChar(text[0], escaped));
        assert kept[1..] == Strip(text[1..], AfterStringChar(text[0], escaped)).value;
      }
    case InLine =>
      if text == "" || IsNewline(text[0]) {
        NewlinesSurvive(text, Code);
      } else {
        NewlinesSurvive(text[1..], InLine);
      }
    case InBlock =>
      if text[..2] == "*/" {
        NewlinesSurvive(text[2..], Code);
        TwoWithoutNewline(text);
      } else {
        NewlinesSurvive(text[1..], InBlock);
        if IsNewline(text[0]) {
          assert kept[1..] == Strip(text[1..], InBlock).value;
        } else {
          assert kept == Strip(text[1..], InBlock).value;
        }
      }
    case Code =>
      if text == "" {
      } else if text[0] == '"' {
        NewlinesSurvive(text[1..], InString(false));
        assert kept[1..] == Strip(text[1..], InString(false)).value;
      } else if OpensLine(text) {
        NewlinesSurvive(text[2..], InLine);
        TwoWithoutNewline(text);
      } else if OpensBlock(text) {
        NewlinesSurvive(text[2..], InBlock);
        TwoWithoutNewline(text);
      } else {
        NewlinesSurvive(text[1..], Code);
        assert kept[1..] == Strip(text[1..], Code).value;
      }
  }

  lemma {:induction false} TwoWithoutNewline(text: string)
    requires |text| >= 2 && !IsNewline(text[0]) && !IsNewline(text[1])
    ensures Newlines(text) == Newlines(text[2..])
  {
    assert text[1..][0] == text[1] && text[1..][1..] == text[2..];
  }

  // ------------------------------------------------------------ stripping inverts commenting

  /** A part of a JSON string literal (section 7 of RFC 8259): a character, or one behind a
      backslash.  An escape by code point is a `u` behind a backslash and four characters. */
  datatype StringPart =
    | Unescaped(c: char)
    | Escape(c: char)

  datatype Token =
    | StringLiteral(parts: seq<StringPart>)
    | Other(text: string)
    | Line(text: string)
    | Block(text: string)

  predicate ValidPart(part: StringPart) {
    part.Unescaped? ==> part.c != '"' && part.c != '\\'
  }

  /** A JSON token, or a comment.  Outside strings JSON has neither `"` nor `/`. */
  predicate ValidToken(token: Token) {
    match token
    case StringLiteral(parts) => forall p :: p in parts ==> ValidPart(p)
    case Other(text) => '"' !in text && '/' !in text
    case Line(text) => '\r' !in text && '\n' !in text
    case Block(text) => forall i :: 0 <= i < |text| - 1 ==> !(text[i] == '*' && text[i + 1] == '/')
  }

  /** Valid tokens; a line comment is followed by its newline or by nothing. */
  predicate ValidTokens(tokens: seq<Token>) {
    && (forall t :: t in tokens ==> ValidToken(t))
    && forall i :: 0 <= i < |tokens| - 1 && tokens[i].Line? ==>
         tokens[i + 1].Other? && tokens[i + 1].text != "" && tokens[i + 1].text[0] in {'\r', '\n'}
  }

  function RenderPart(part: StringPart): string {
    match part
    case Unescaped(c) => [c]
    case Escape(c) => ['\\', c]
  }

  function RenderParts(parts: seq<StringPart>): string {
    if parts == [] then "" else RenderPart(parts[0]) + RenderParts(parts[1..])
  }

  function Render(token: Token): string {
    match token
    case StringLiteral(parts) => "\"" + RenderParts(parts) + "\""
    case Other(text) => text
    case Line(text) => "//" + text
    case Block(text) => "/*" + text + "*/"
  }

  function RenderAll(tokens: seq<Token>): string {
    if tokens == [] then "" else Render(tokens[0]) + RenderAll(tokens[1..])
  }

  /** A comment's newlines, and everything else as it is. */
  function WithoutComment(token: Token): string {
    match token
    case Line(_) => ""
    case Block(text) => Newlines(text)
    case _ => Render(token)
  }

  function WithoutComments(tokens: seq<Token>): string {
    if tokens == [] then "" else WithoutComment(tokens[0]) + WithoutComments(tokens[1..])
  }

  /** Stripping a commented JSON text gives its tokens back, each comment replaced by its
      newlines. */
  lemma {:induction false} StrippingIsExact(tokens: seq<Token>)
    requires ValidTokens(tokens)
    ensures Strip(RenderAll(tokens), Code) == Some(WithoutComments(tokens))
  {
    if tokens != [] {
      var token, rest := tokens[0], RenderAll(tokens[1..]);
      assert ValidToken(token) && forall t :: t in tokens[1..] ==> t in tokens;
      StrippingIsExact(tokens[1..]);
      if |tokens| > 1 && token.Line? {
        assert tokens[1..][0] == tokens[1];
      }
      StripToken(token, rest);
    }
  }

  lemma {:induction false} StripToken(token: Token, rest: string)
    requires ValidToken(token) && (token.Line? && rest != "" ==> IsNewline(rest[0]))
    ensures Strip(Render(token) + rest, Code) == Prefixed(WithoutComment(token), Strip(rest, Code))
  {
    match token
    case StringLiteral(parts) => StripLiteral(parts, rest);
    case Other(plain) => StripOther(plain, rest);
    case Line(comment) => StripLineComment(comment, rest);
    case Block(comment) => StripBlockComment(comment, rest);
  }

  /** A line comment ends before the first CR or LF, which is kept with all that follows. */
  lemma {:induction false} LineCommentEnds(comment: string, c: char, rest: string)
    requires '\r' !in comment && '\n' !in comment && c in {'\r', '\n'}
    ensures Strip("//" + comment + [c] + rest, Code) == Prefixed([c], Strip(rest, Code))
  {
    assert "//" + comment + [c] + rest == Render(Line(comment)) + ([c] + rest);
    StripLineComment(comment, [c] + rest);
    PrefixedTwice("", "", Strip([c] + rest, Code));
    KeepOne(c, rest, Code);
  }

  lemma {:induction false} StripLineComment(comment: string, rest: string)
    requires ValidToken(Line(comment)) && (rest != "" ==> IsNewline(rest[0]))
    ensures Strip(Render(Line(comment)) + rest, Code) == Prefixed("", Strip(rest, Code))
  {
    StripOpening(comment + rest, '/');
    assert Render(Line(comment)) + rest == ['/', '/'] + (comment + rest);
    StripLine(comment, rest);
    PrefixedTwice("", "", Strip(rest, Code));
  }

  lemma {:induction false} StripBlockComment(comment: string, rest: string)
    requires ValidToken(Block(comment))
    ensures Strip(Render(Block(comment)) + rest, Code) == Prefixed(Newlines(comment), Strip(rest, Code))
  {
    StripOpening(comment + "*/" + rest, '*');
    assert Render(Block(comment)) + rest == ['/', '*'] + (comment + "*/" + rest);
    StripBlock(comment, rest);
  }

  lemma {:induction false} StripOpening(text: string, second: char)
    ensures second == '/' ==> Strip(['/', second] + text, Code) == Strip(text, InLine)
    ensures second == '*' ==> Strip(['/', second] + text, Code) == Strip(text, InBlock)
  {
    assert (['/', second] + text)[2..] == text;
  }

  lemma {:induction false} StripLiteral(parts: seq<StringPart>, rest: string)
    requires forall p :: p in parts ==> ValidPart(p)
    ensures Strip(Render(StringLiteral(parts)) + rest, Code) == Prefixed(Render(StringLiteral(parts)), Strip(rest, Code))
  {
    var inside := RenderParts(parts) + "\"";
    assert Render(StringLiteral(parts)) == ['"'] + inside;
    assert Render(StringLiteral(parts)) + rest == ['"'] + (inside + rest);
    KeepOne('"', inside + rest, Code);
    StripString(parts, rest);
    PrefixedTwice(['"'], inside, Strip(rest, Code));
  }

  function After(c: char, scan: Scan): Scan {
    if scan.InString? then AfterStringChar(c, scan.escaped)
    else if c == '"' then InString(false)
    else scan
  }

  lemma {:induction false} KeepOne(c: char, rest: string, scan: Scan)
    requires scan.InString? || (scan.Code? && c != '/')
    ensures Strip([c] + rest, scan) == Prefixed([c], Strip(rest, After(c, scan)))
  {
    assert ([c] + rest)[1..] == rest;
  }

  lemma {:induction false} StripString(parts: seq<StringPart>, rest: string)
    requires forall p :: p in parts ==> ValidPart(p)
    ensures Strip(RenderParts(parts) + "\"" + rest, InString(false))
         == Prefixed(RenderParts(parts) + "\"", Strip(rest, Code))
  {
    if parts == [] {
      assert RenderParts(parts) + "\"" + rest == ['"'] + rest;
      KeepOne('"', rest, InString(false));
    } else {
      var tail := RenderParts(parts[1..]) + "\"";
      StripString(parts[1..], rest);
      assert RenderParts(parts) + "\"" + rest == RenderPart(parts[0]) + (tail + rest);
      StripPart(parts[0], tail + rest);
      PrefixedTwice(RenderPart(parts[0]), tail, Strip(rest, Code));
      assert RenderPart(parts[0]) + tail == RenderParts(parts) + "\"";
    }
  }

  lemma {:induction false} StripPart(part: StringPart, more: string)
    requires ValidPart(part)
    ensures Strip(RenderPart(part) + more, InString(false)) == Prefixed(RenderPart(part), Strip(more, InString(false)))
  {
    match part
    case Unescaped(c) =>
      KeepOne(c, more, InString(false));
    case Escape(c) =>
      KeepEscaped(c, more);
  }

  lemma {:induction false} KeepEscaped(c: char, more: string)
    ensures Strip(['\\', c] + more, InString(false)) == Prefixed(['\\', c], Strip(more, InString(false)))
  {
    assert ['\\', c] + more == ['\\'] + ([c] + more) && ['\\', c] == ['\\'] + [c];
    KeepOne('\\', [c] + more, InString(false));
    KeepOne(c, more, InString(true));
    PrefixedTwice(['\\'], [c], Strip(more, InString(false)));
  }

  lemma {:induction false} StripOther(text: string, rest: string)
    requires '"' !in text && '/' !in text
    ensures Strip(text + rest, Code) == Prefixed(text, Strip(rest, Code))
  {
    PrefixedTwice("", "", Strip(rest, Code));
    if text == "" {
      assert text + rest == rest;
    } else {
      StripOther(text[1..], rest);
      assert text + rest == [text[0]] + (text[1..] + rest) && text == [text[0]] + text[1..];
      KeepOne(text[0], text[1..] + rest, Code);
      PrefixedTwice([text[0]], text[1..], Strip(rest, Code));
    }
  }

  lemma {:induction false} StripLine(text: string, rest: string)
    requires forall c :: c in text ==> !IsNewline(c)
    requires rest != "" ==> IsNewline(rest[0])
    ensures Strip(text + rest, InLine) == Strip(rest, Code)
  {
    if text == "" {
      assert text + rest == rest;
    } else {
      StripLine(text[1..], rest);
      assert (text + rest)[1..] == text[1..] + rest;
    }
  }

  lemma {:induction false} StripBlock(text: string, rest: string)
    requires ValidToken(Block(text))
    ensures Strip(text + "*/" + rest, InBlock) == Prefixed(Newlines(text), Strip(rest, Code))
  {
    var all := text + "*/" + rest;
    PrefixedTwice("", "", Strip(rest, Code));
    if text == "" {
      assert all[..2] == "*/" && all[2..] == rest;
    } else {
      StripBlock(text[1..], rest);
      assert all[1..] == text[1..] + "*/" + rest;
      assert all[..2][0] == text[0] && (|text| > 1 ==> all[..2][1] == text[1]) && (|text| == 1 ==> all[..2][1] == '*');
      PrefixedTwice(if IsNewline(text[0]) then [text[0]] else "", Newlines(text[1..]), Strip(rest, Code));
    }
  }
}
