/** The input side of the `icegridadmin` parser (`IceGrid::Parser`): the
    command string handed to the scanner in chunks, `#line` directives,
    the continuation prompt, and the error count that decides the exit
    status of `parse`. The grammar itself is not modelled: what it asks the
    parser to do is given as a sequence of actions. */
module ParserInput {
  import opened Wrappers
  import Text

  const EXIT_SUCCESS: int := 0
  const EXIT_FAILURE: int := 1

  /** `_commands`, `_errors`, `_continue`, `_currentFile`, `_currentLine`. */
  datatype ParserState = ParserState(
    commands: string,
    errors: nat,
    continuing: bool,
    currentFile: string,
    currentLine: int)

  // ---------------------------------------------------------------------
  // Feeding a command string to the scanner

  /** What one `getInput` call gives the scanner: nothing from the command
      string (the buffer is empty, so input comes from a terminal or file),
      end of input (result 0), or a chunk of text. */
  datatype Read = FromTerminalOrFile | EndOfInput | Chunk(data: string)

  function Min(a: int, b: int): int {
    if a < b then a else b
  }

  /** The command-string branch of `getInput`, as written: ";" marks the
      exhausted buffer, otherwise up to `maxSize` characters are taken from
      the front and an emptied buffer is set to ";". */
  function TakeChunk(buffer: string, maxSize: nat): (r: (Read, string))
    ensures buffer == [] <==> r.0.FromTerminalOrFile?
    ensures buffer == ";" <==> r.0.EndOfInput?
    ensures r.0.Chunk? ==>
      && |r.0.data| == Min(maxSize, |buffer|)
      && buffer == r.0.data + (if r.1 == ";" && |r.0.data| == |buffer| then "" else r.1)
    ensures !r.0.Chunk? ==> r.1 == buffer
    ensures r.1 != []
      || buffer == []
  {
    if buffer == [] then (FromTerminalOrFile, buffer)
    else if buffer == ";" then (EndOfInput, buffer)
    else
      var n := Min(maxSize, |buffer|);
      var rest := buffer[n..];
      assert buffer == buffer[..n] + rest;
      (Chunk(buffer[..n]), if rest == [] then ";" else rest)
  }

  /** `getInput` on the parser state. */
  function GetInput(st: ParserState, maxSize: nat): (r: (Read, ParserState))
    ensures r.1 == st.(commands := TakeChunk(st.commands, maxSize).1)
    ensures r.0 == TakeChunk(st.commands, maxSize).0
  {
    var (read, rest) := TakeChunk(st.commands, maxSize);
    (read, st.(commands := rest))
  }

  function Concat(chunks: seq<string>): string {
    if chunks == [] then "" else chunks[0] + Concat(chunks[1..])
  }

  function FeedMeasure(buffer: string): nat {
    if buffer == ";" then 0 else |buffer| + 1
  }

  /** The chunks the scanner receives, as written, until end of input. */
  function FeedAsWritten(buffer: string, maxSize: nat): (chunks: seq<string>)
    requires maxSize > 0
    ensures forall i :: 0 <= i < |chunks| ==> 0 < |chunks[i]| <= maxSize
    decreases FeedMeasure(buffer)
  {
    match TakeChunk(buffer, maxSize).0
    case Chunk(data) => [data] + FeedAsWritten(TakeChunk(buffer, maxSize).1, maxSize)
    case _ => []
  }

  /** A command string ending in ";" whose last chunk boundary falls just
      before that ";" loses it: the remainder ";" is read as the end
      marker. */
  lemma FeedAsWrittenDropsSemicolon()
    ensures FeedAsWritten("a;", 1) == ["a"]
    ensures Concat(FeedAsWritten("a;", 1)) != "a;"
  {
    var s := "a;";
    assert s[..1] == "a" && s[1..] == ";";
    assert TakeChunk(s, 1) == (Chunk("a"), ";");
    assert FeedAsWritten(";", 1) == [];
    assert Concat(["a"]) == "a" + Concat([]);
  }

  /** Corrected feeding: the end of the command string is recorded apart
      from its text, so every character reaches the scanner. */
  function Feed(text: string, maxSize: nat): (chunks: seq<string>)
    requires maxSize > 0
    ensures forall i :: 0 <= i < |chunks| ==> 0 < |chunks[i]| <= maxSize
    ensures Concat(chunks) == text
  {
    if text == [] then []
    else
      var n := Min(maxSize, |text|);
      assert text == text[..n] + text[n..];
      [text[..n]] + Feed(text[n..], maxSize)
  }

  /** Every chunk but the last is full. */
  lemma {:induction false} FeedChunksAreFull(text: string, maxSize: nat)
    requires maxSize > 0
    ensures forall i :: 0 <= i < |Feed(text, maxSize)| - 1 ==> |Feed(text, maxSize)[i]| == maxSize
  {
    if text != [] {
      var n := Min(maxSize, |text|);
      FeedChunksAreFull(text[n..], maxSize);
      var c := Feed(text, maxSize);
      assert c == [text[..n]] + Feed(text[n..], maxSize);
      if |c| > 1 {
        assert Feed(text[n..], maxSize) != [];
        assert text[n..] != [];
      }
    }
  }

  /** As written and corrected feeding agree on every command string that
      does not end in ';'. */
  lemma {:induction false} FeedAgreesUnlessSemicolonLast(text: string, maxSize: nat)
    requires maxSize > 0
    requires text != [] && text[|text| - 1] != ';'
    ensures FeedAsWritten(text, maxSize) == Feed(text, maxSize)
    decreases |text|
  {
    var n := Min(maxSize, |text|);
    var rest := text[n..];
    assert text != ";";
    assert TakeChunk(text, maxSize).0 == Chunk(text[..n]);
    if rest == [] {
      assert TakeChunk(text, maxSize).1 == ";";
      assert FeedAsWritten(";", maxSize) == [];
    } else {
      assert rest[|rest| - 1] == text[|text| - 1];
      assert TakeChunk(text, maxSize).1 == rest;
      FeedAgreesUnlessSemicolonLast(rest, maxSize);
    }
  }

  // ---------------------------------------------------------------------
  // #line directives

  /** `scanPosition`, as written: drop through "line", skip " \t\r#", read
      the line number with `atoi`, skip to the white space after it, and
      take the next token, quotes stripped, as the file name. */
  function ScanPositionAsWritten(st: ParserState, directive: string): (r: ParserState)
    ensures r.commands == st.commands && r.errors == st.errors && r.continuing == st.continuing
    ensures r.currentLine == Text.Atoi(AfterLineKeyword(directive)) - 1
    ensures Text.FindFirstOf(AfterLineKeyword(directive), " \t\r", 0).Some? ==> r == ScanPosition(st, directive)
    ensures Text.FindFirstOf(AfterLineKeyword(directive), " \t\r", 0).None? ==>
      r.currentFile == FileToken(AfterLineKeyword(directive)).GetOr(st.currentFile)
  {
    var line2 := AfterLineKeyword(directive);
    var currentLine := Text.Atoi(line2) - 1;
    var line3 := match Text.FindFirstOf(line2, " \t\r", 0)
      case Some(idx) => line2[idx..]
      case None => line2;
    st.(currentLine := currentLine, currentFile := FileToken(line3).GetOr(st.currentFile))
  }

  /** The text from the line number on. */
  function AfterLineKeyword(directive: string): (r: string)
    ensures |r| <= |directive|
  {
    var line1 := match Text.FindSub(directive, "line", 0)
      case Some(idx) => directive[idx + 4..]
      case None => directive;
    match Text.FindFirstNotOf(line1, " \t\r#", 0)
    case Some(idx) => line1[idx..]
    case None => line1
  }

  /** The first token of `s` once leading blanks and quotes are skipped, up
      to the next blank or quote; None when nothing but blanks and quotes
      remain. */
  function FileToken(s: string): (r: Option<string>)
    ensures r.Some? ==> r.value != [] && forall c :: c in r.value ==> c !in " \t\r\""
  {
    match Text.FindFirstNotOf(s, " \t\r\"", 0)
    case None => None
    case Some(idx) =>
      var t := s[idx..];
      match Text.FindFirstOf(t, " \t\r\"", 0)
      case Some(j) =>
        assert t[0] == s[idx];
        assert forall i :: 0 <= i < j ==> t[..j][i] == t[i];
        Some(t[..j])
      case None => Some(t)
  }

  /** Corrected `scanPosition`: the file name is only taken from text that
      follows the line number after white space, so "#line N" alone keeps
      the current file. */
  function ScanPosition(st: ParserState, directive: string): (r: ParserState)
    ensures r.commands == st.commands && r.errors == st.errors && r.continuing == st.continuing
    ensures r.currentLine == Text.Atoi(AfterLineKeyword(directive)) - 1
    ensures Text.FindFirstOf(AfterLineKeyword(directive), " \t\r", 0).None? ==> r.currentFile == st.currentFile
  {
    var line2 := AfterLineKeyword(directive);
    var currentLine := Text.Atoi(line2) - 1;
    match Text.FindFirstOf(line2, " \t\r", 0)
    case Some(idx) =>
      st.(currentLine := currentLine, currentFile := FileToken(line2[idx..]).GetOr(st.currentFile))
    case None => st.(currentLine := currentLine)
  }

  predicate IsFileName(f: string) {
    f != [] && forall c :: c in f ==> c !in " \t\r\""
  }

  /** The text a preprocessor writes: `#line N "file"`. */
  function LineDirective(n: nat, file: string): string {
    "#line " + Text.NatToDigits(n) + " \"" + file + "\""
  }

  lemma AfterKeywordOfDirective(d: string, tail: string)
    requires |d| >= 1 && Text.AllDigits(d)
    ensures AfterLineKeyword("#line " + d + tail) == d + tail
  {
    var s := "#line " + d + tail;
    assert s[1..5] == "line";
    assert !Text.OccursAt(s, "line", 0) by { assert s[0] == '#'; }
    assert Text.FindSub(s, "line", 0) == Some(1);
    var line1 := s[5..];
    assert line1 == " " + d + tail;
    assert line1[1] == d[0] && Text.IsDigit(d[0]);
    assert Text.FindFirstNotOf(line1, " \t\r#", 0) == Some(1);
    assert line1[1..] == d + tail;
  }

  lemma DigitsThenSpace(d: string, tail: string)
    requires |d| >= 1 && Text.AllDigits(d)
    requires tail != [] && tail[0] == ' '
    ensures Text.FindFirstOf(d + tail, " \t\r", 0) == Some(|d|)
    ensures Text.Atoi(d + tail) == Text.DigitsValue(d)
  {
    var s := d + tail;
    assert forall i :: 0 <= i < |d| ==> s[i] == d[i] && Text.IsDigit(s[i]);
    assert s[|d|] == ' ';
    Text.FindFirstOfFrom(s, " \t\r", 0, |d|);
    Text.NumeralIsLeadingInt(d, tail);
  }

  /** A directive as a preprocessor writes it sets the file and makes the
      next line number N. */
  lemma ScanPositionRoundTrip(st: ParserState, n: nat, file: string)
    requires IsFileName(file)
    ensures ScanPosition(st, LineDirective(n, file)).currentFile == file
    ensures NextLine(ScanPosition(st, LineDirective(n, file))).currentLine == n
    ensures ScanPositionAsWritten(st, LineDirective(n, file)) == ScanPosition(st, LineDirective(n, file))
  {
    var d := Text.NatToDigits(n);
    var tail := " \"" + file + "\"";
    assert LineDirective(n, file) == "#line " + d + tail;
    AfterKeywordOfDirective(d, tail);
    DigitsThenSpace(d, tail);
    Text.DigitsRoundTrip(n);
    assert (d + tail)[|d|..] == tail;
    FileTokenOfQuoted(file);
  }

  /** A quoted file name after a blank is read back without its quotes. */
  lemma FileTokenOfQuoted(file: string)
    requires IsFileName(file)
    ensures FileToken(" \"" + file + "\"") == Some(file)
  {
    var s := " \"" + file + "\"";
    assert s[0] == ' ' && s[1] == '"' && s[2] == file[0];
    assert file[0] in file;
    assert Text.FindFirstNotOf(s, " \t\r\"", 0) == Some(2);
    var t := s[2..];
    assert t == file + "\"";
    assert forall i :: 0 <= i < |file| ==> t[i] == file[i] && t[i] in file;
    assert t[|file|] == '"';
    assert Text.FindFirstOf(t, " \t\r\"", 0) == Some(|file|);
    assert t[..|file|] == file;
  }

  /** "#line N" alone: as written the number itself becomes the file name;
      corrected, the file is kept. */
  lemma BareLineDirective(st: ParserState, n: nat)
    ensures ScanPositionAsWritten(st, "#line " + Text.NatToDigits(n)).currentFile == Text.NatToDigits(n)
    ensures ScanPosition(st, "#line " + Text.NatToDigits(n)).currentFile == st.currentFile
  {
    var d := Text.NatToDigits(n);
    BareDirectiveSearches(d);
    assert FileToken(d) == Some(d) by {
      assert d[0..] == d;
    }
  }

  lemma BareDirectiveSearches(d: string)
    requires |d| >= 1 && Text.AllDigits(d)
    ensures AfterLineKeyword("#line " + d) == d
    ensures Text.FindFirstOf(d, " \t\r", 0) == None
    ensures Text.FindFirstNotOf(d, " \t\r\"", 0) == Some(0)
    ensures Text.FindFirstOf(d, " \t\r\"", 0) == None
  {
    AfterKeywordOfBare(d);
    NoBlankInDigits(d, " \t\r");
    NoBlankInDigits(d, " \t\r\"");
    assert Text.IsDigit(d[0]);
  }

  lemma AfterKeywordOfBare(d: string)
    requires |d| >= 1 && Text.AllDigits(d)
    ensures AfterLineKeyword("#line " + d) == d
  {
    AfterKeywordOfDirective(d, "");
    assert "#line " + d + "" == "#line " + d;
    assert d + "" == d;
  }

  lemma NoBlankInDigits(d: string, blanks: string)
    requires Text.AllDigits(d)
    requires forall c :: c in blanks ==> !Text.IsDigit(c)
    ensures Text.FindFirstOf(d, blanks, 0) == None
  {
  }

  // ---------------------------------------------------------------------
  // Prompt and line counting

  /** `nextLine`. */
  function NextLine(st: ParserState): (r: ParserState)
    ensures r.currentLine == st.currentLine + 1
    ensures r.(currentLine := st.currentLine) == st
  {
    st.(currentLine := st.currentLine + 1)
  }

  /** `continueLine`. */
  function ContinueLine(st: ParserState): (r: ParserState)
    ensures r.continuing
    ensures r.(continuing := st.continuing) == st
  {
    st.(continuing := true)
  }

  /** `getPrompt`, only used when reading from a terminal with an empty
      command buffer: the continuation prompt once, then the usual one. */
  function GetPrompt(st: ParserState): (r: (string, ParserState))
    requires st.commands == []
    ensures !r.1.continuing
    ensures r.0 == "(cont) " <==> st.continuing
    ensures r.0 == "(cont) " || r.0 == ">>> "
    ensures r.1.(continuing := st.continuing) == st
  {
    if st.continuing then ("(cont) ", st.(continuing := false)) else (">>> ", st)
  }

  /** After `continueLine` the next prompt is "(cont) " and the one after it
      ">>> ". */
  lemma ContinuationPromptOnce(st: ParserState)
    requires st.commands == []
    ensures GetPrompt(ContinueLine(st)).0 == "(cont) "
    ensures GetPrompt(GetPrompt(ContinueLine(st)).1).0 == ">>> "
  {
  }

  // ---------------------------------------------------------------------
  // Diagnostics

  /** The prefix of a diagnostic: "file:line: " when reading a script, and
      nothing otherwise (the caller adds "error: " or "warning: "). */
  function Located(st: ParserState, tty: bool): bool {
    st.commands == [] && !tty
  }

  /** `error`: one line on standard error, and one more error counted. */
  function Error(st: ParserState, tty: bool, msg: string): (r: (ParserState, string))
    ensures r.0 == st.(errors := st.errors + 1)
    ensures Located(st, tty) ==> r.1 == st.currentFile + ":" + Text.IntToString(st.currentLine) + ": " + msg
    ensures !Located(st, tty) ==> r.1 == "error: " + msg
  {
    var text := if Located(st, tty) then st.currentFile + ":" + Text.IntToString(st.currentLine) + ": " + msg
      else "error: " + msg;
    (st.(errors := st.errors + 1), text)
  }

  /** `warning`: one line on standard error; nothing is counted. */
  function Warning(st: ParserState, tty: bool, msg: string): (r: string)
    ensures Located(st, tty) ==> r == st.currentFile + ":" + Text.IntToString(st.currentLine) + ": warning: " + msg
    ensures !Located(st, tty) ==> r == "warning: " + msg
  {
    if Located(st, tty) then st.currentFile + ":" + Text.IntToString(st.currentLine) + ": warning: " + msg
    else "warning: " + msg
  }

  /** What the grammar asks of the parser while it runs. */
  datatype Action =
    | ReportError(msg: string)
    | ReportWarning(msg: string)
    | NewLine
    | Continue
    | Directive(text: string)

  function ErrorCount(actions: seq<Action>): nat {
    if actions == [] then 0
    else (if actions[0].ReportError? then 1 else 0) + ErrorCount(actions[1..])
  }

  function DiagnosticCount(actions: seq<Action>): nat {
    if actions == [] then 0
    else (if actions[0].ReportError? || actions[0].ReportWarning? then 1 else 0) + DiagnosticCount(actions[1..])
  }

  /** One action: the new state and the lines written to standard error. */
  function Perform(st: ParserState, tty: bool, a: Action): (r: (ParserState, seq<string>))
    ensures r.0.errors == st.errors + (if a.ReportError? then 1 else 0)
    ensures |r.1| == (if a.ReportError? || a.ReportWarning? then 1 else 0)
    ensures r.0.commands == st.commands
  {
    match a
    case ReportError(msg) => var (st', line) := Error(st, tty, msg); (st', [line])
    case ReportWarning(msg) => (st, [Warning(st, tty, msg)])
    case NewLine => (NextLine(st), [])
    case Continue => (ContinueLine(st), [])
    case Directive(text) => (ScanPosition(st, text), [])
  }

  /** The actions in order. The buffer is not consumed here: in
      command-string mode it is never empty, which is all the diagnostics
      depend on. */
  function Run(st: ParserState, tty: bool, actions: seq<Action>): (r: (ParserState, seq<string>))
    ensures r.0.commands == st.commands
    decreases |actions|
  {
    if actions == [] then (st, [])
    else
      var first := Perform(st, tty, actions[0]);
      var rest := Run(first.0, tty, actions[1..]);
      (rest.0, first.1 + rest.1)
  }

  /** Every reported error is counted, and only those; each error and
      warning writes one line. */
  lemma {:induction false} RunCountsErrors(st: ParserState, tty: bool, actions: seq<Action>)
    ensures Run(st, tty, actions).0.errors == st.errors + ErrorCount(actions)
    ensures |Run(st, tty, actions).1| == DiagnosticCount(actions)
    decreases |actions|
  {
    if actions != [] {
      var st1 := Perform(st, tty, actions[0]).0;
      RunCountsErrors(st1, tty, actions[1..]);
    }
  }

  /** While a command string is parsed, every diagnostic starts with
      "error: " or "warning: ", never with a file position. */
  lemma {:induction false} CommandStringDiagnostics(st: ParserState, tty: bool, actions: seq<Action>)
    requires st.commands != []
    decreases |actions|
    ensures forall i :: 0 <= i < |Run(st, tty, actions).1| ==>
      var line := Run(st, tty, actions).1[i];
      (|line| >= 7 && line[..7] == "error: ") || (|line| >= 9 && line[..9] == "warning: ")
  {
    if actions != [] {
      var (st1, out1) := Perform(st, tty, actions[0]);
      CommandStringDiagnostics(st1, tty, actions[1..]);
      var out := Run(st, tty, actions).1;
      var out2 := Run(st1, tty, actions[1..]).1;
      assert out == out1 + out2;
      forall i | 0 <= i < |out|
        ensures (|out[i]| >= 7 && out[i][..7] == "error: ") || (|out[i]| >= 9 && out[i][..9] == "warning: ")
      {
        if i < |out1| {
          assert i == 0;
          match actions[0]
          case ReportError(msg) =>
            assert out[i] == "error: " + msg;
          case ReportWarning(msg) =>
            assert out[i] == "warning: " + msg;
          case _ =>
        } else {
          assert out[i] == out2[i - |out1|];
        }
      }
    }
  }

  /** The state `parse` starts from: no errors, no continuation, no file,
      and `nextLine` already called. */
  function Start(commands: string): (st: ParserState)
    ensures st.errors == 0 && !st.continuing && st.currentLine == 1 && st.currentFile == ""
  {
    NextLine(ParserState(commands, 0, false, "", 0))
  }

  /** `parse(commands)`: the status `yyparse` returned, turned into
      EXIT_FAILURE when any error was reported; and the diagnostics. */
  function ParseString(commands: string, actions: seq<Action>, yyparseStatus: int): (r: (int, seq<string>))
    requires commands != []
    ensures ErrorCount(actions) > 0 ==> r.0 == EXIT_FAILURE
    ensures ErrorCount(actions) == 0 ==> r.0 == yyparseStatus
    ensures |r.1| == DiagnosticCount(actions)
  {
    // yyin is null here; it is never consulted because the buffer is never
    // empty, so the value passed for "is a terminal" does not matter.
    var (st, out) := Run(Start(commands), false, actions);
    RunCountsErrors(Start(commands), false, actions);
    (if st.errors > 0 then EXIT_FAILURE else yyparseStatus, out)
  }

  /** `parse(file)`: as `parse(commands)`, but reading a file or terminal.
      The buffer is not reset (its `empty()` call has no effect), so it is
      whatever a previous parse left in it. */
  function ParseFile(buffer: string, tty: bool, actions: seq<Action>, yyparseStatus: int): (r: (int, seq<string>))
    ensures ErrorCount(actions) > 0 ==> r.0 == EXIT_FAILURE
    ensures ErrorCount(actions) == 0 ==> r.0 == yyparseStatus
    ensures |r.1| == DiagnosticCount(actions)
  {
    var (st, out) := Run(Start(buffer), tty, actions);
    RunCountsErrors(Start(buffer), tty, actions);
    (if st.errors > 0 then EXIT_FAILURE else yyparseStatus, out)
  }

  /** A script's errors carry the file and line: reading a file (not a
      terminal) with an empty buffer, the line written for the i-th action,
      when that action reports an error, names the file and line the parser
      has reached by then. */
  lemma ScriptErrorsAreLocated(st: ParserState, tty: bool, actions: seq<Action>, i: nat)
    requires Located(st, tty)
    requires i < |actions| && actions[i].ReportError?
    ensures var here := Run(st, tty, actions[..i]).0;
      && DiagnosticCount(actions[..i]) < |Run(st, tty, actions).1|
      && Run(st, tty, actions).1[DiagnosticCount(actions[..i])]
         == here.currentFile + ":" + Text.IntToString(here.currentLine) + ": " + actions[i].msg
  {
    var here := Run(st, tty, actions[..i]).0;
    assert actions == actions[..i] + actions[i..];
    RunAppend(st, tty, actions[..i], actions[i..]);
    RunCountsErrors(st, tty, actions[..i]);
    assert Located(here, tty);
    var rest := actions[i..];
    assert rest[0] == actions[i];
    assert Run(here, tty, rest).1 == Perform(here, tty, rest[0]).1 + Run(Perform(here, tty, rest[0]).0, tty, rest[1..]).1;
  }

  /** Running two sequences of actions one after the other is running the
      first, then the second from where the first left off. */
  lemma {:induction false} RunAppend(st: ParserState, tty: bool, p: seq<Action>, q: seq<Action>)
    ensures var mid := Run(st, tty, p);
      Run(st, tty, p + q) == (Run(mid.0, tty, q).0, mid.1 + Run(mid.0, tty, q).1)
    decreases |p|
  {
    if p == [] {
      var whole := Run(st, tty, q);
      assert Run(st, tty, p) == (st, []);
      assert Run(st, tty, p + q) == whole by {
        assert p + q == q;
      }
      AppendEmpty(whole.1);
    } else {
      var first := Perform(st, tty, p[0]);
      var inner := Run(first.0, tty, p[1..]);
      var after := Run(inner.0, tty, q);
      assert Run(st, tty, p) == (inner.0, first.1 + inner.1) by {
        RunCons(st, tty, p);
      }
      assert Run(first.0, tty, p[1..] + q) == (after.0, inner.1 + after.1) by {
        RunAppend(first.0, tty, p[1..], q);
      }
      assert Run(st, tty, p + q) == (after.0, first.1 + (inner.1 + after.1)) by {
        assert (p + q)[0] == p[0] && (p + q)[1..] == p[1..] + q;
        RunCons(st, tty, p + q);
      }
      AppendAssociative(first.1, inner.1, after.1);
    }
  }

  /** The empty sequence is a left unit of appending. */
  lemma AppendEmpty<T>(a: seq<T>)
    ensures [] + a == a
  {
  }

  /** Appending is associative. */
  lemma AppendAssociative<T>(a: seq<T>, b: seq<T>, c: seq<T>)
    ensures a + (b + c) == (a + b) + c
  {
  }

  /** One step of `Run`. */
  lemma RunCons(st: ParserState, tty: bool, actions: seq<Action>)
    requires actions != []
    ensures var first := Perform(st, tty, actions[0]);
      Run(st, tty, actions) == (Run(first.0, tty, actions[1..]).0, first.1 + Run(first.0, tty, actions[1..]).1)
  {
  }

  /** The smallest script error: one error on the first line of an unnamed
      file fails the run with a located message. */
  lemma ScriptErrorExample(msg: string)
    ensures ParseFile("", false, [ReportError(msg)], 0) == (EXIT_FAILURE, [":1: " + msg])
  {
    assert ErrorCount([ReportError(msg)]) == 1 + ErrorCount([]);
    assert Text.NatToDigits(1) == [Text.DigitChar(1)] == "1";
    assert Text.IntToString(1) == "1";
    var st := Start("");
    assert Located(st, false);
    assert Error(st, false, msg).1 == ":1: " + msg;
    assert [ReportError(msg)][1..] == [];
    assert Run(st, false, [ReportError(msg)]).1 == [":1: " + msg] + [];
    assert Run(st, false, [ReportError(msg)]).0.errors == 1;
    assert ParseFile("", false, [ReportError(msg)], 0).1 == Run(st, false, [ReportError(msg)]).1;
    assert [":1: " + msg] + [] == [":1: " + msg];
    assert ParseFile("", false, [ReportError(msg)], 0).0 == EXIT_FAILURE;
  }
}
