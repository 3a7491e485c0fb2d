/** The output side of the `icegridadmin` parser (`IceGrid::Parser`): the
    option checks and line windows of the `dump` commands (`dumpFile`), the
    layout of a patch failure report (`patchFailed`), and the way registry
    exceptions become error or warning reports (`exception`). */
module ParserOutput {
  import opened Wrappers
  import Text
  import ParserCommands
  import ParserInput

  // ---------------------------------------------------------------------
  // dump options

  /** The options `dumpFile` accepts: -f|--follow, -h|--head N, -t|--tail N. */
  datatype DumpOptions = DumpOptions(follow: bool, head: Option<string>, tail: Option<string>)

  datatype DumpMode = Head(count: int) | Tail(count: int) | Everything

  /** What `dumpFile` goes on to do once its checks pass. */
  datatype DumpPlan = DumpPlan(id: string, mode: DumpMode, follow: bool)

  const DEFAULT_LINE_COUNT: int := 20

  /** The line count: 20 unless -h or -t supplies one; a value that does not
      read as a 32-bit integer leaves the 20 in place. */
  function LineCount(opts: DumpOptions): (n: int)
    ensures opts.head.None? && opts.tail.None? ==> n == DEFAULT_LINE_COUNT
    ensures Text.INT_MIN <= n <= Text.INT_MAX
  {
    if opts.head.Some? then Text.ExtractInt(opts.head.value).GetOr(DEFAULT_LINE_COUNT)
    else if opts.tail.Some? then Text.ExtractInt(opts.tail.value).GetOr(DEFAULT_LINE_COUNT)
    else DEFAULT_LINE_COUNT
  }

  const BOTH_OPTIONS: string := "can't specify both -h | --head and -t | --tail options"
  const BAD_COUNT: string := "invalid argument for -h | --head or -t | --tail option"
  const FOLLOW_WITH_HEAD: string := "can't use -f | --follow option with -h | --head option"

  /** The usage message naming the command, e.g. "`server dump stdout'". */
  function DumpUsage(reader: string, filename: string): string {
    "`" + reader + " dump " + filename + "' requires one argument"
  }

  /** The checks of `dumpFile`, in the order it makes them, assuming the
      session opened the file. The open comes between the argument check
      and the option checks, so a failed open is reported (by `exception`)
      before any option error. The header printed after the open is not
      modelled. */
  function PlanDump(reader: string, filename: string, args: seq<string>, opts: DumpOptions)
    : (r: Result<DumpPlan, string>)
    ensures |args| != 1 ==>
      r == Err(ParserCommands.InvalidCommandText(DumpUsage(reader, filename)))
    ensures |args| == 1 && opts.head.Some? && opts.tail.Some? ==>
      r == Err(ParserCommands.InvalidCommandText(BOTH_OPTIONS))
    ensures |args| == 1 && (opts.head.Some? != opts.tail.Some?) && LineCount(opts) <= 0 ==>
      r == Err(ParserCommands.InvalidCommandText(BAD_COUNT))
    ensures |args| == 1 && opts.head.Some? && opts.tail.None? && LineCount(opts) > 0 && opts.follow ==>
      r == Err(ParserCommands.InvalidCommandText(FOLLOW_WITH_HEAD))
    ensures r.Ok? ==> |args| == 1 && r.value.id == args[0] && r.value.follow == opts.follow
    ensures r.Ok? && opts.head.Some? ==> r.value.mode == Head(LineCount(opts)) && !opts.follow
    ensures r.Ok? && opts.tail.Some? ==> r.value.mode == Tail(LineCount(opts))
    ensures r.Ok? && opts.head.None? && opts.tail.None? ==> r.value.mode == Everything
    ensures r.Ok? ==> !(opts.head.Some? && opts.tail.Some?) && LineCount(opts) > 0
    ensures (&& |args| == 1
             && !(opts.head.Some? && opts.tail.Some?)
             && ((opts.head.None? && opts.tail.None?) || LineCount(opts) > 0)
             && !(opts.head.Some? && opts.follow)) ==> r.Ok?
  {
    if |args| != 1 then
      Err(ParserCommands.InvalidCommandText(DumpUsage(reader, filename)))
    else if opts.head.Some? && opts.tail.Some? then
      Err(ParserCommands.InvalidCommandText(BOTH_OPTIONS))
    else if (opts.head.Some? || opts.tail.Some?) && LineCount(opts) <= 0 then
      Err(ParserCommands.InvalidCommandText(BAD_COUNT))
    else if opts.head.Some? && opts.follow then
      Err(ParserCommands.InvalidCommandText(FOLLOW_WITH_HEAD))
    else
      var mode := if opts.head.Some? then Head(LineCount(opts))
        else if opts.tail.Some? then Tail(LineCount(opts))
        else Everything;
      Ok(DumpPlan(args[0], mode, opts.follow))
  }

  /** A count written as a positive decimal number is used as given. */
  lemma HeadCountRoundTrip(id: string, n: int, follow: bool)
    requires 0 < n <= Text.INT_MAX
    ensures var opts := DumpOptions(false, Some(Text.IntToString(n)), None);
      PlanDump("server", "stdout", [id], opts) == Ok(DumpPlan(id, Head(n), false))
  {
    Text.ExtractIntRoundTrip(n, "");
    assert Text.IntToString(n) + "" == Text.IntToString(n);
  }

  /** A count that is not a number at all keeps the default of 20 rather
      than being rejected. */
  lemma UnreadableCountKeepsDefault(id: string, count: string)
    requires forall i :: 0 <= i < |count| ==> !Text.IsDigit(count[i])
    ensures PlanDump("node", "stderr", [id], DumpOptions(false, None, Some(count))) == Ok(DumpPlan(id, Tail(20), false))
  {
    Text.NoDigitsNoInt(count);
  }

  // ---------------------------------------------------------------------
  // Line windows

  /** The file iterator's `read(20)`: the next twenty lines, fewer at the
      end. */
  const CHUNK: nat := 20

  function ReadChunk(lines: seq<string>, pos: nat): (chunk: seq<string>)
    requires pos <= |lines|
    ensures |chunk| <= CHUNK && pos + |chunk| <= |lines|
    ensures |chunk| < CHUNK ==> pos + |chunk| == |lines|
    ensures chunk == lines[pos..pos + |chunk|]
  {
    if pos + CHUNK <= |lines| then lines[pos..pos + CHUNK] else lines[pos..]
  }

  /** The head mode of `dumpFile`: print lines until `lineCount` have been
      printed or a short read shows the end of the file. */
  method HeadLines(lines: seq<string>, lineCount: int) returns (out: seq<string>)
    requires lineCount > 0
    ensures out == lines[..ParserInput.Min(lineCount, |lines|)]
    ensures |out| <= lineCount
  {
    out := [];
    var i := 0;
    var pos := 0;
    while true
      invariant 0 <= pos <= |lines|
      invariant i == pos && i < lineCount
      invariant out == lines[..i]
      decreases |lines| - pos
    {
      var chunk := ReadChunk(lines, pos);
      var k := 0;
      while i < lineCount && k < |chunk|
        invariant 0 <= k <= |chunk|
        invariant i == pos + k
        invariant i <= lineCount
        invariant out == lines[..i]
      {
        out := out + [chunk[k]];
        k := k + 1;
        i := i + 1;
      }
      pos := pos + |chunk|;
      if i == lineCount || |chunk| < CHUNK {
        break;
      }
    }
  }

  /** The tail mode of `dumpFile`: keep appending what is read and trim the
      front to `lineCount` lines. */
  method TailLines(lines: seq<string>, lineCount: int) returns (out: seq<string>)
    requires lineCount > 0
    ensures out == lines[|lines| - ParserInput.Min(lineCount, |lines|)..]
    ensures |out| <= lineCount
  {
    var last: seq<string> := [];
    var pos := 0;
    while true
      invariant 0 <= pos <= |lines|
      invariant last == lines[pos - ParserInput.Min(lineCount, pos)..pos]
      invariant |last| <= lineCount
      decreases |lines| - pos
    {
      var chunk := ReadChunk(lines, pos);
      var start := pos - ParserInput.Min(lineCount, pos);
      SlicesJoin(lines, start, pos, pos + |chunk|);
      last := last + chunk;
      pos := pos + |chunk|;
      var remove := |last| - lineCount;
      if remove > 0 {
        SliceOfSlice(lines, start, pos, remove);
        last := last[remove..];
      }
      if |chunk| < CHUNK {
        break;
      }
    }
    out := last;
  }

  lemma SlicesJoin<T>(s: seq<T>, a: nat, b: nat, c: nat)
    requires a <= b <= c <= |s|
    ensures s[a..b] + s[b..c] == s[a..c]
  {
  }

  lemma SliceOfSlice<T>(s: seq<T>, a: nat, c: nat, k: nat)
    requires a + k <= c <= |s|
    ensures s[a..c][k..] == s[a + k..c]
  {
  }

  /** Without -h or -t, every line is printed. */
  method AllLines(lines: seq<string>) returns (out: seq<string>)
    ensures out == lines
  {
    out := [];
    var pos := 0;
    while true
      invariant 0 <= pos <= |lines|
      invariant out == lines[..pos]
      decreases |lines| - pos
    {
      var chunk := ReadChunk(lines, pos);
      out := out + chunk;
      pos := pos + |chunk|;
      if |chunk| < CHUNK {
        break;
      }
    }
  }

  // ---------------------------------------------------------------------
  // Patch failure report

  const PATCH_FAILED_HEADER: string := "the patch failed on some nodes:\n"

  /** Position of the next newline at or after `from`, or the length. */
  function NewlineOrEnd(s: string, from: nat): (e: nat)
    requires from <= |s|
    ensures from <= e <= |s|
    ensures e < |s| ==> s[e] == '\n'
    ensures forall j :: from <= j < e ==> s[j] != '\n'
  {
    match Text.FindFirstOf(s, "\n", from)
    case Some(e) => e
    case None => |s|
  }

  /** The inner loop of `patchFailed`: each further segment of the reason
      on a new line indented by two. */
  function ContinuationLines(reason: string, end: nat): (r: string)
    requires end <= |reason|
    ensures end < |reason| <==> r != []
    ensures r != [] ==> |r| >= 3 && r[..3] == "\n  "
    decreases |reason| - end
  {
    if end < |reason| then
      var beg := end + 1;
      var e := NewlineOrEnd(reason, beg);
      "\n  " + reason[beg..e] + ContinuationLines(reason, e)
    else ""
  }

  /** One reason as `patchFailed` lays it out. */
  function ReasonText(reason: string): (r: string)
    ensures |r| >= 2 && r[..2] == "- "
  {
    var end := NewlineOrEnd(reason, 0);
    "- " + reason[..end] + ContinuationLines(reason, end)
  }

  /** The reasons in order, separated by a newline, none after the last. */
  function ReasonsText(reasons: seq<string>): string {
    if reasons == [] then ""
    else ReasonText(reasons[0]) + (if |reasons| > 1 then "\n" else "") + ReasonsText(reasons[1..])
  }

  /** The warning text of `patchFailed`. */
  function PatchFailedText(reasons: seq<string>): (r: string)
    ensures r == PATCH_FAILED_HEADER + Text.Join(Bullets(reasons), "\n")
  {
    ReasonsJoin(reasons);
    PATCH_FAILED_HEADER + ReasonsText(reasons)
  }

  /** A reason as a bullet: its lines, the first after "- ", the others
      indented by two. */
  function Bullet(reason: string): string {
    "- " + Indented(reason)
  }

  /** The lines of `s` joined by a newline and a two-space indent. */
  function Indented(s: string): string {
    Text.Join(Text.Split(s, '\n'), "\n  ")
  }

  function Bullets(reasons: seq<string>): (r: seq<string>)
    ensures |r| == |reasons| && forall i :: 0 <= i < |reasons| ==> r[i] == Bullet(reasons[i])
  {
    seq(|reasons|, i requires 0 <= i < |reasons| => Bullet(reasons[i]))
  }

  /** `find_first_of` from `from` is `find_first_of` on the suffix, shifted. */
  lemma FindFirstOfShift(s: string, cs: string, from: nat)
    requires from <= |s|
    ensures Text.FindFirstOf(s[from..], cs, 0).Some? ==>
      Text.FindFirstOf(s, cs, from) == Some(Text.FindFirstOf(s[from..], cs, 0).value + from)
    ensures Text.FindFirstOf(s[from..], cs, 0).None? ==> Text.FindFirstOf(s, cs, from).None?
  {
    var a := Text.FindFirstOf(s, cs, from);
    var b := Text.FindFirstOf(s[from..], cs, 0);
    if b.Some? {
      var i := b.value;
      assert s[from + i] == s[from..][i];
      assert forall j :: from <= j < from + i ==> s[j] == s[from..][j - from];
    }
  }

  /** The next newline from `from` is found by searching the suffix. */
  lemma NewlineOrEndShift(s: string, from: nat)
    requires from <= |s|
    ensures NewlineOrEnd(s, from) == from + NewlineOrEnd(s[from..], 0)
  {
    FindFirstOfShift(s, "\n", from);
  }

  /** Splitting at the first newline, then joining with `glue`. */
  lemma JoinSplitAt(s: string, glue: string)
    ensures Text.FindFirstOf(s, "\n", 0).None? ==> Text.Join(Text.Split(s, '\n'), glue) == s
    ensures Text.FindFirstOf(s, "\n", 0).Some? ==>
      var i := Text.FindFirstOf(s, "\n", 0).value;
      Text.Join(Text.Split(s, '\n'), glue) == s[..i] + glue + Text.Join(Text.Split(s[i + 1..], '\n'), glue)
  {
    match Text.FindFirstOf(s, "\n", 0)
    case Some(i) =>
      assert Text.Split(s, '\n') == [s[..i]] + Text.Split(s[i + 1..], '\n');
      Text.JoinCons(s[..i], Text.Split(s[i + 1..], '\n'), glue);
    case None =>
  }

  /** The first line of `s`, then the indented layout of the others. */
  lemma IndentedUnfold(s: string)
    ensures var e := NewlineOrEnd(s, 0);
      Indented(s) == s[..e] + (if e < |s| then "\n  " + Indented(s[e + 1..]) else "")
  {
    JoinSplitAt(s, "\n  ");
    if Text.FindFirstOf(s, "\n", 0).None? {
      assert s[..|s|] + "" == s;
    }
  }

  /** The segment from `beg` to the next newline and the text after that
      newline, seen from the suffix that starts at `beg`. */
  lemma SegmentOfSuffix(reason: string, beg: nat)
    requires beg <= |reason|
    ensures var e := NewlineOrEnd(reason, beg);
      var s := reason[beg..];
      var e' := NewlineOrEnd(s, 0);
      && e == beg + e'
      && reason[beg..e] == s[..e']
      && (e < |reason| ==> reason[e + 1..] == s[e' + 1..])
  {
    NewlineOrEndShift(reason, beg);
  }

  /** The inner loop lays out the segments after a newline. */
  lemma {:induction false} ContinuationIsSplit(reason: string, end: nat)
    requires end <= |reason|
    requires end == |reason| || reason[end] == '\n'
    ensures end < |reason| ==> ContinuationLines(reason, end) == "\n  " + Indented(reason[end + 1..])
    ensures end == |reason| ==> ContinuationLines(reason, end) == ""
    decreases |reason| - end
  {
    if end < |reason| {
      var beg := end + 1;
      var e := NewlineOrEnd(reason, beg);
      ContinuationIsSplit(reason, e);
      IndentedFromNewline(reason, beg);
      ContinuationStep(reason, end);
    }
  }

  /** One iteration of the inner loop, unfolded. */
  lemma ContinuationStep(reason: string, end: nat)
    requires end < |reason|
    ensures var e := NewlineOrEnd(reason, end + 1);
      ContinuationLines(reason, end) == "\n  " + (reason[end + 1..e] + ContinuationLines(reason, e))
  {
    var e := NewlineOrEnd(reason, end + 1);
    var seg := reason[end + 1..e];
    var rest := ContinuationLines(reason, e);
    assert ContinuationLines(reason, end) == "\n  " + seg + rest;
    ParserInput.AppendAssociative("\n  ", seg, rest);
  }

  /** One step of the inner loop: given the layout of what follows the
      next newline, the layout from `beg` is the segment then that. */
  lemma IndentedFromNewline(reason: string, beg: nat)
    requires beg <= |reason|
    requires var e := NewlineOrEnd(reason, beg);
      ContinuationLines(reason, e) == if e < |reason| then "\n  " + Indented(reason[e + 1..]) else ""
    ensures var e := NewlineOrEnd(reason, beg);
      Indented(reason[beg..]) == reason[beg..e] + ContinuationLines(reason, e)
  {
    SegmentOfSuffix(reason, beg);
    IndentedUnfold(reason[beg..]);
  }

  /** The code's layout of one reason is the bullet of its lines. */
  lemma ReasonTextIsBullet(reason: string)
    ensures ReasonText(reason) == Bullet(reason)
  {
    var end := NewlineOrEnd(reason, 0);
    var rest := ContinuationLines(reason, end);
    assert Indented(reason) == reason[..end] + rest by {
      ContinuationIsSplit(reason, end);
      IndentedUnfold(reason);
    }
  }

  /** The reasons' layout is the bullets joined by newlines. */
  lemma {:induction false} ReasonsJoin(reasons: seq<string>)
    ensures ReasonsText(reasons) == Text.Join(Bullets(reasons), "\n")
  {
    if reasons != [] {
      ReasonTextIsBullet(reasons[0]);
      ReasonsJoin(reasons[1..]);
      assert Bullets(reasons)[1..] == Bullets(reasons[1..]);
      if |reasons| == 1 {
        assert ReasonsText(reasons[1..]) == "";
      }
    }
  }

  // ---------------------------------------------------------------------
  // Reporting registry exceptions

  /** The exceptions `exception` distinguishes. `shown` is the exception's
      own printed form, which the model does not compute. */
  datatype AdminException =
    | ApplicationNotExist(name: string)
    | NodeNotExist(name: string)
    | ServerNotExist(id: string)
    | AdapterNotExist(id: string)
    | ObjectExists(identity: string)
    | Deployment(shown: string, reason: string)
    | Patch(shown: string, reasons: seq<string>)
    | BadSignal(reason: string)
    | NodeUnreachable(name: string, reason: string)
    | AccessDenied(lockUserId: string)
    | FileNotAvailable(reason: string)
    | XmlParse(shown: string)
    | Local(shown: string)
    | OtherException(shown: string)

  /** `exception`: a patch that failed on several nodes (or none) is only a
      warning; everything else is an error. */
  function ReportException(ex: AdminException): (a: ParserInput.Action)
    ensures a.ReportWarning? <==> ex.Patch? && |ex.reasons| != 1
    ensures a.ReportWarning? ==> a.msg == PatchFailedText(ex.reasons)
    ensures ex.Patch? && |ex.reasons| == 1 ==> a == ParserInput.ReportError(ex.shown + ":\n" + ex.reasons[0])
    ensures !(ex.Patch? && |ex.reasons| != 1) ==> a.ReportError?
  {
    match ex
    case ApplicationNotExist(name) => ParserInput.ReportError("couldn't find application `" + name + "'")
    case NodeNotExist(name) => ParserInput.ReportError("couldn't find node `" + name + "'")
    case ServerNotExist(id) => ParserInput.ReportError("couldn't find server `" + id + "'")
    case AdapterNotExist(id) => ParserInput.ReportError("couldn't find adapter `" + id + "'")
    case ObjectExists(identity) => ParserInput.ReportError("object `" + identity + "' already exists")
    case Deployment(shown, reason) => ParserInput.ReportError(shown + ":\n" + reason)
    case Patch(shown, reasons) =>
      if |reasons| == 1 then ParserInput.ReportError(shown + ":\n" + reasons[0])
      else ParserInput.ReportWarning(PatchFailedText(reasons))
    case BadSignal(reason) => ParserInput.ReportError(reason)
    case NodeUnreachable(name, reason) => ParserInput.ReportError("node `" + name + "' couldn't be reached:\n" + reason)
    case AccessDenied(user) =>
      ParserInput.ReportError("couldn't update the registry, the session from `" + user + "' is updating the registry")
    case FileNotAvailable(reason) => ParserInput.ReportError("couldn't access file:\n" + reason)
    case XmlParse(shown) => ParserInput.ReportError(shown)
    case Local(shown) => ParserInput.ReportError("couldn't reach the IceGrid registry:\n" + shown)
    case OtherException(shown) => ParserInput.ReportError(shown)
  }

  /** A patch that fails on several nodes does not change the exit status of
      a command string; any other registry exception makes it EXIT_FAILURE. */
  lemma PatchWarningKeepsStatus(commands: string, ex: AdminException, status: int)
    requires commands != []
    ensures ex.Patch? && |ex.reasons| != 1 ==>
      ParserInput.ParseString(commands, [ReportException(ex)], status).0 == status
    ensures !(ex.Patch? && |ex.reasons| != 1) ==>
      ParserInput.ParseString(commands, [ReportException(ex)], status).0 == ParserInput.EXIT_FAILURE
  {
    assert ParserInput.ErrorCount([ReportException(ex)]) == (if ReportException(ex).ReportError? then 1 else 0) + ParserInput.ErrorCount([]);
  }
}
