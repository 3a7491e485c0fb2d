# Ice collocated delegate and IceGrid adapter cache and admin parser, in Dafny

This project models three pieces of the Ice middleware (the 2006-era source tree) and proves properties about them.

- **The collocated delegate** (`Ice._ObjectDelD`, module `ObjectDelD`). A proxy whose object lives in the same
  process calls the servant directly instead of going over the wire. For each `Ice.Object` operation
  (`ice_isA`, `ice_ping`, `ice_ids`, `ice_id`, `ice_facets`, `ice_invoke`), the delegate does four things:
  - builds a `Current` from its reference;
  - leases the facet servant through an `IceInternal.Direct`;
  - calls the servant and translates the runtime exceptions it throws into `UnknownRuntimeException` /
    `UnknownException`;
  - always destroys the `Direct`.

  The model returns the outcome together with the trace of lease events. The servant and the object adapter
  are function-valued fields (oracles).
- **The IceGrid adapter cache** (`AdapterCache.cpp`, modules `AdapterCache` and `ReplicaSelection`). The
  registry maps adapter ids to server adapters and replica groups:
  - adding and removing entries keeps a cross-reference invariant (`AdapterCache.Consistent`);
  - replica groups parse their load-balancing policy;
  - `getProxies` orders the replicas (round robin, ordered by priority, or an externally shuffled order) and
    collects the proxies of the reachable ones.
- **The IceGrid admin parser's helpers** (`Parser.cpp`, modules `Text`, `ParserCommands`, `ParserInput`,
  `ParserOutput`):
  - argument counting and usage messages;
  - splitting `name=value` arguments from target lists;
  - feeding a command string to the lexer in chunks;
  - `#line` directives;
  - prompts;
  - located error and warning messages, and the exit status;
  - the `dump` options and line windows;
  - the multi-line layout of a patch failure report;
  - the mapping from admin exceptions to diagnostics.

`Text` holds the string routines the C++ code takes from the standard library:
- `find_first_of` and `find_first_not_of`;
- `istream >> int` with C++98 failure semantics;
- `atoi`;
- splitting on a character.

`Wrappers` holds `Option` and `Result`.

## Model

| member | source | states |
|---|---|---|
| ObjectDelD.InitCurrent | java/src/Ice/_ObjectDelD.java:267-275 | the current carries the reference's identity and facet and the operation, mode and context the call passed in |
| ObjectDelD.Translate | java/src/Ice/_ObjectDelD.java:30-41 | an Ice runtime exception becomes UnknownRuntimeException, any other Java runtime exception becomes UnknownException, and only the declared exceptions and errors pass through unchanged (each direction an iff) |
| ObjectDelD.Settle | java/src/Ice/_ObjectDelD.java:26-41 | a servant value is returned unchanged and a servant throwable leaves translated |
| ObjectDelD.Dispatch | java/src/Ice/_ObjectDelD.java:21-47 | the lease trace is balanced (at most one Direct, always destroyed); a failed lease yields an empty trace and propagates its exception; a granted lease dispatches exactly once with the built current |
| ObjectDelD.IceIsA | java/src/Ice/_ObjectDelD.java:15-48 | a failed lease propagates its exception with no lease taken; a granted lease is acquired, the servant called once with the current for "ice_isA", Nonmutating, and the caller's context, and destroyed, and the outcome is the servant's reply with runtime exceptions translated |
| ObjectDelD.IcePing | java/src/Ice/_ObjectDelD.java:50-84 | a failed lease propagates its exception with no lease taken; a granted lease is acquired, the servant called once with the current for "ice_ping", Nonmutating, and the caller's context, and destroyed, and the outcome is the servant's reply with runtime exceptions translated |
| ObjectDelD.IceIds | java/src/Ice/_ObjectDelD.java:86-119 | a failed lease propagates its exception with no lease taken; a granted lease is acquired, the servant called once with the current for "ice_ids", Nonmutating, and the caller's context, and destroyed, and the outcome is the servant's reply with runtime exceptions translated |
| ObjectDelD.IceId | java/src/Ice/_ObjectDelD.java:121-154 | a failed lease propagates its exception with no lease taken; a granted lease is acquired, the servant called once with the current for "ice_id", Nonmutating, and the caller's context, and destroyed, and the outcome is the servant's reply with runtime exceptions translated |
| ObjectDelD.IceFacets | java/src/Ice/_ObjectDelD.java:156-189 | a failed lease propagates its exception with no lease taken; a granted lease is acquired, the servant called once with the current for "ice_facets", Nonmutating, and the caller's context, and destroyed, and the outcome is the servant's reply with runtime exceptions translated |
| ObjectDelD.IceInvoke | java/src/Ice/_ObjectDelD.java:191-236 | a failed lease propagates its exception; a servant that is not a Blobject yields OperationNotExistException for the operation with the lease acquired and destroyed and no call; a Blobject is called once with the built current and its reply settled as for the probes |
| ObjectDelD.IceFlush | java/src/Ice/_ObjectDelD.java:238-242 | flushing a collocated delegate changes nothing |
| ObjectDelD.Setup | java/src/Ice/_ObjectDelD.java:277-286 | the delegate keeps the given reference and adapter |
| ObjectDelD.CopyFrom | java/src/Ice/_ObjectDelD.java:247-262 | the copy takes the source's reference and adapter |
| ObjectDelD.LeaseTracesBalanced | java/src/Ice/_ObjectDelD.java:43-46 | both traces a call can leave (acquire, dispatch, destroy, or acquire, destroy) are balanced |
| ObjectDelD.ProbeLease | java/src/Ice/_ObjectDelD.java:19-23 | when the adapter cannot lease the servant, ice_isA propagates that exception without a lease; otherwise it acquires, dispatches once and destroys |
| ObjectDelD.ProbeTranslation | java/src/Ice/_ObjectDelD.java:26-41 | with a leased servant, ice_isA returns the servant's answer or its translated exception |
| ObjectDelD.NoRawRuntimeFromServant | java/src/Ice/_ObjectDelD.java:65-76 | a raw runtime exception can leave ice_ping only when no servant was leased, so no servant runtime exception escapes untranslated |
| ObjectDelD.InvokeNeedsBlobject | java/src/Ice/_ObjectDelD.java:203-213 | ice_invoke on a servant that is not a Blobject raises OperationNotExistException for that operation, after acquiring and destroying the Direct |
| ObjectDelD.InvokeBlobject | java/src/Ice/_ObjectDelD.java:214-229 | ice_invoke on a Blobject returns what the Blobject hook returns, or its translated exception |
| ObjectDelD.ContextPassesThrough | java/src/Ice/_ObjectDelD.java:267-275 | on every operation that reaches a servant, the servant is called once and sees exactly the caller's context; two calls differing only in context build currents differing only in context |
| ObjectDelD.CopyBehavesAsSource | java/src/Ice/_ObjectDelD.java:247-262 | after copyFrom, every operation of the copy behaves exactly as the source delegate's |
| ObjectDelD.SetupTargetsReference | java/src/Ice/_ObjectDelD.java:277-286 | a delegate set up from a reference dispatches to that reference's identity and facet |
| Text.SkipSpaces | cpp/src/IceGrid/AdapterCache.cpp:76-78 | the result is a suffix whose dropped prefix is all white space and which does not start with white space |
| Text.ExtractInt | cpp/src/IceGrid/AdapterCache.cpp:76-78 | the extraction succeeds iff a numeral heads the text and its value fits in 32 bits, and the value stored is then that numeral's value |
| Text.Atoi | cpp/src/IceGrid/Parser.cpp:1667 | atoi agrees with the stream extraction whenever that succeeds, and yields 0 when no numeral heads the text |
| Text.DigitsRoundTrip | cpp/src/IceGrid/Parser.cpp:1667 | reading back the decimal digits of n gives n |
| Text.LeadingIntRoundTrip | cpp/src/IceGrid/Parser.cpp:1667 | the printed form of any integer, followed by a non-digit, reads back as that integer |
| Text.ExtractIntRoundTrip | cpp/src/IceGrid/AdapterCache.cpp:76-78 | the printed form of any 32-bit integer, followed by a non-digit, is extracted as that integer |
| Text.NoDigitsNoInt | cpp/src/IceGrid/AdapterCache.cpp:76-78 | text without digits yields no integer: extraction fails and atoi gives 0 |
| Text.FindFirstOf | cpp/src/IceGrid/Parser.cpp:1716-1727 | the result is the first position at or after from holding one of the characters, or none when there is no such position |
| Text.FindFirstNotOf | cpp/src/IceGrid/Parser.cpp:1661-1665 | the result is the first position at or after from holding none of the characters, or none when there is no such position |
| Text.FindSub | cpp/src/IceGrid/Parser.cpp:1655-1659 | the result is the first occurrence of the pattern at or after from, or none when it does not occur |
| Text.Split | cpp/src/IceGrid/Parser.cpp:1714-1732 | splitting yields at least one part, and no part contains the separator |
| Text.JoinSplit | cpp/src/IceGrid/Parser.cpp:1714-1732 | joining the parts of a split with the separator gives back the text |
| Text.SplitJoin | cpp/src/IceGrid/Parser.cpp:1714-1732 | splitting the join of separator-free parts gives back the parts |
| AdapterCache.ParsePriority | cpp/src/IceGrid/AdapterCache.cpp:76-78 | the priority is a 32-bit integer, and 0 when the descriptor's text does not read as one |
| AdapterCache.PriorityRoundTrip | cpp/src/IceGrid/AdapterCache.cpp:76-78 | the printed form of any 32-bit priority parses back to that priority |
| AdapterCache.SampleOf | cpp/src/IceGrid/AdapterCache.cpp:355-366 | "5" selects the 5-minute sample and "15" the 15-minute sample (iff); anything else selects the 1-minute sample |
| AdapterCache.Update | cpp/src/IceGrid/AdapterCache.cpp:340-372 | the policy is stored; the replica count is the integer read (1 if negative, 0 if none); an adaptive policy selects its load sample, other policies keep the old one; the replicas and cursor are untouched |
| AdapterCache.UpdateReplicaCount | cpp/src/IceGrid/AdapterCache.cpp:348-351 | a printed replica count n is stored as n, except that a negative count becomes 1 |
| AdapterCache.NewReplicaGroup | cpp/src/IceGrid/AdapterCache.cpp:307-315 | a new group has no replicas, its cursor at 0, and the descriptor's id and policy |
| AdapterCache.AddReplica | cpp/src/IceGrid/AdapterCache.cpp:317-322 | the replica is appended at the end, nothing else changes, and the cursor stays in range |
| AdapterCache.FirstReplica | cpp/src/IceGrid/AdapterCache.cpp:328-331 | the result is the first replica with the id, or none when no replica has it |
| AdapterCache.RemoveReplica | cpp/src/IceGrid/AdapterCache.cpp:324-338 | an absent id leaves the group unchanged; otherwise exactly the first replica with that id is erased, the other fields are kept, and the cursor is brought back in range |
| AdapterCache.RemoveReplicaKeepsCursor | cpp/src/IceGrid/AdapterCache.cpp:324-338 | removing a replica keeps the round-robin cursor in range |
| AdapterCache.RemoveReplicaContents | cpp/src/IceGrid/AdapterCache.cpp:324-338 | with distinct ids, removal keeps the ids distinct and leaves exactly the replicas with other ids |
| AdapterCache.AddServerAdapter | cpp/src/IceGrid/AdapterCache.cpp:70-91 | the adapter is registered under its id with the parsed priority, appended to its replica group if it names one, and no other entry changes |
| AdapterCache.AddReplicaGroup | cpp/src/IceGrid/AdapterCache.cpp:93-101 | the new group (built by the constructor) is registered under its id, exactly one key is added, and every existing entry is unchanged |
| AdapterCache.Get | cpp/src/IceGrid/AdapterCache.cpp:103-113 | the entry is returned iff the id is registered, else AdapterNotExistException with that id |
| AdapterCache.GetServerAdapter | cpp/src/IceGrid/AdapterCache.cpp:115-125 | a server adapter is returned iff the id names one, else AdapterNotExistException with that id |
| AdapterCache.GetReplicaGroup | cpp/src/IceGrid/AdapterCache.cpp:127-137 | a replica group is returned iff the id names one, else AdapterNotExistException with that id |
| AdapterCache.RemoveServerAdapter | cpp/src/IceGrid/AdapterCache.cpp:139-155 | the id is unregistered, the adapter is removed from its replica group, and no other entry changes |
| AdapterCache.RemoveReplicaGroup | cpp/src/IceGrid/AdapterCache.cpp:157-162 | only the id is unregistered |
| AdapterCache.AddServerAdapterConsistent | cpp/src/IceGrid/AdapterCache.cpp:70-91 | adding a server adapter keeps the cache consistent: ids match their keys, each group's members are registered adapters naming that group, and each adapter naming a group is listed in it |
| AdapterCache.AddReplicaGroupConsistent | cpp/src/IceGrid/AdapterCache.cpp:93-101 | adding a replica group keeps the cache consistent |
| AdapterCache.RemoveServerAdapterConsistent | cpp/src/IceGrid/AdapterCache.cpp:139-155 | in a consistent cache the adapter's group exists (so the asserts hold), and removing the adapter keeps the cache consistent |
| AdapterCache.RemoveReplicaGroupConsistent | cpp/src/IceGrid/AdapterCache.cpp:157-162 | removing a group that no adapter names keeps the cache consistent |
| ReplicaSelection.GetProxy | cpp/src/IceGrid/AdapterCache.cpp:284-299 | a request naming another replica group fails with InvalidReplicaGroupId; otherwise the adapter's own proxy lookup decides |
| ReplicaSelection.ServerAdapterProxies | cpp/src/IceGrid/AdapterCache.cpp:224-238 | a plain server adapter yields one replica, not a group, and its own proxy or the lookup's exception |
| ReplicaSelection.Rotation | cpp/src/IceGrid/AdapterCache.cpp:393-396 | the round-robin order has one entry per replica, each of them a replica of the group |
| ReplicaSelection.RotationIsSplice | cpp/src/IceGrid/AdapterCache.cpp:391-398 | the round-robin order is the replicas from the cursor on followed by those before it, a permutation of the replicas |
| ReplicaSelection.InsertByPriority | cpp/src/IceGrid/AdapterCache.cpp:35-41 | inserting into a priority-sorted list keeps it sorted and adds exactly the new replica |
| ReplicaSelection.SortByPriority | cpp/src/IceGrid/AdapterCache.cpp:407-411 | the ordered policy's list is sorted by ascending priority and is a permutation of the replicas |
| ReplicaSelection.Candidates | cpp/src/IceGrid/AdapterCache.cpp:389-431 | round robin rotates at the cursor and advances it modulo the count; ordered sorts by priority without touching the group; random and adaptive use the supplied order |
| ReplicaSelection.RoundRobinPermutes | cpp/src/IceGrid/AdapterCache.cpp:391-398 | a round-robin selection lists every replica once and keeps the cursor in range |
| ReplicaSelection.RoundRobinAdvances | cpp/src/IceGrid/AdapterCache.cpp:391-398 | the next round-robin selection starts with the replica that came second in this one |
| ReplicaSelection.Kept | cpp/src/IceGrid/AdapterCache.cpp:441-463 | a failure is never one the loop skips, and no more proxies are kept than there were candidates |
| ReplicaSelection.KeptFailsOnFatal | cpp/src/IceGrid/AdapterCache.cpp:441-463 | collection fails iff some candidate's lookup fails with an exception the loop does not skip, and the failure is the first such one |
| ReplicaSelection.KeptKeepsOrder | cpp/src/IceGrid/AdapterCache.cpp:441-463 | the kept proxies appear in candidate order, each is the lookup's answer for its adapter, and there is one per successful lookup |
| ReplicaSelection.CollectProxies | cpp/src/IceGrid/AdapterCache.cpp:441-463 | the loop computes exactly the kept proxies (or the first fatal failure) |
| ReplicaSelection.PrependTwice | cpp/src/IceGrid/AdapterCache.cpp:441-463 | collecting in two steps is the same as collecting both fronts at once |
| ReplicaSelection.ReplicaGroupProxies | cpp/src/IceGrid/AdapterCache.cpp:374-466 | an empty group yields no adapters and is left alone; otherwise the replica count is the policy's when positive, else the group size, and the adapters are those kept from the policy's order |
| ReplicaSelection.GroupMembersAccepted | cpp/src/IceGrid/AdapterCache.cpp:284-299 | in a consistent cache a group's own members are never refused with InvalidReplicaGroupId |
| ParserCommands.Assignment | cpp/src/IceGrid/Parser.cpp:206-217 | an argument is an assignment iff it contains '='; its name is the text before the first '=' and its value the rest |
| ParserCommands.SplitArguments | cpp/src/IceGrid/Parser.cpp:206-217 | the loop over the arguments yields no more targets than arguments; TargetsArePlainArguments, AssignedVariables and LastAssignmentWins state what it yields |
| ParserCommands.Step | cpp/src/IceGrid/Parser.cpp:208-216 | one argument adds at most one target; StepOnVariable states its effect on each variable |
| ParserCommands.AssignmentRoundTrip | cpp/src/IceGrid/Parser.cpp:206-217 | name=value splits back into that name and value when the name has no '=' |
| ParserCommands.TargetsArePlainArguments | cpp/src/IceGrid/Parser.cpp:206-217 | the targets are exactly the arguments without '=', in order |
| ParserCommands.AssignedVariables | cpp/src/IceGrid/Parser.cpp:206-217 | a variable is defined iff some argument assigns it |
| ParserCommands.LastAssignmentWins | cpp/src/IceGrid/Parser.cpp:206-217 | a defined variable holds the value of the last argument assigning it |
| ParserCommands.VariablesWithout | cpp/src/IceGrid/Parser.cpp:504-511 | dropping plain arguments does not change the variables |
| ParserCommands.ArityOf | cpp/src/IceGrid/Parser.cpp:490-494 | every command needs between one and three arguments, as each handler's count check demands |
| ParserCommands.NameOf | cpp/src/IceGrid/Parser.cpp:249-253 | every command is named by at least two words, as typed at the prompt |
| ParserCommands.Requirement | cpp/src/IceGrid/Parser.cpp:192-196 | a usage message starts with the command's name in quotes |
| ParserCommands.GuardMessageAsWritten | cpp/src/IceGrid/Parser.cpp:345-349 | the messages as written agree with the command's own name except for application update and server remove |
| ParserCommands.GuardMessagesAsWrittenMisnamed | cpp/src/IceGrid/Parser.cpp:765-769 | the written message differs from the command's own iff the command is application update or server remove |
| ParserCommands.GuardMessage | cpp/src/IceGrid/Parser.cpp:249-253 | the usage message names the command that was typed |
| ParserCommands.InvalidCommandText | cpp/src/IceGrid/Parser.cpp:1693-1703 | the message is followed by the hint to type help |
| ParserCommands.Guard | cpp/src/IceGrid/Parser.cpp:438-442 | a command is refused iff its argument count is wrong for it (exact or minimum), with its usage message |
| ParserCommands.AddApplicationCommand | cpp/src/IceGrid/Parser.cpp:169-244 | with no argument the usage error; otherwise the descriptor, the plain targets, the variables and the patch flag as !no-patch |
| ParserCommands.DiffApplicationCommand | cpp/src/IceGrid/Parser.cpp:296-340 | with no argument the usage error; otherwise the descriptor, targets and variables |
| ParserCommands.UpdateApplicationCommand | cpp/src/IceGrid/Parser.cpp:342-378 | with no argument the usage error; otherwise the descriptor, targets and variables |
| ParserCommands.InstantiateServerTemplateCommand | cpp/src/IceGrid/Parser.cpp:487-522 | with fewer than three arguments the usage error; otherwise application, node, template and the variables from the rest |
| ParserCommands.InstantiateIgnoresPlainArguments | cpp/src/IceGrid/Parser.cpp:504-511 | the instantiation's variables do not depend on plain trailing arguments |
| ParserInput.TakeChunk | cpp/src/IceGrid/Parser.cpp:1516-1539 | an empty buffer means read from terminal or file; ";" means end of input; otherwise a chunk of at most the maximum is taken from the front and the rest remains |
| ParserInput.GetInput | cpp/src/IceGrid/Parser.cpp:1516-1539 | only the command buffer changes, as the chunk taker says |
| ParserInput.FeedAsWritten | cpp/src/IceGrid/Parser.cpp:1516-1539 | every chunk handed to the lexer is non-empty and no larger than the maximum |
| ParserInput.FeedAsWrittenDropsSemicolon | cpp/src/IceGrid/Parser.cpp:1520-1522 | the command string "a;" read one character at a time reaches the lexer as "a" |
| ParserInput.Feed | cpp/src/IceGrid/Parser.cpp:1516-1539 | the chunks are non-empty, no larger than the maximum, and concatenate to the command string |
| ParserInput.FeedChunksAreFull | cpp/src/IceGrid/Parser.cpp:1516-1539 | every chunk but the last is full |
| ParserInput.FeedAgreesUnlessSemicolonLast | cpp/src/IceGrid/Parser.cpp:1516-1539 | the code as written feeds the right chunks whenever the string does not end in ';' |
| ParserInput.ScanPositionAsWritten | cpp/src/IceGrid/Parser.cpp:1649-1691 | only the position changes; the next line number is the directive's number; when a blank follows the number it agrees with the corrected scan, otherwise the file becomes the first token of the text from the number on |
| ParserInput.ScanPosition | cpp/src/IceGrid/Parser.cpp:1649-1691 | as above, and a directive without a file name keeps the current file |
| ParserInput.ScanPositionRoundTrip | cpp/src/IceGrid/Parser.cpp:1649-1691 | after the directive `#line n "file"`, the current file is file and the next line is numbered n, and the code as written does the same |
| ParserInput.FileTokenOfQuoted | cpp/src/IceGrid/Parser.cpp:1675-1690 | a quoted file name is read back without its quotes |
| ParserInput.BareLineDirective | cpp/src/IceGrid/Parser.cpp:1669-1690 | `#line n` with no file name makes the code as written take the digits for the file name, while the corrected scan keeps the current file |
| ParserInput.NextLine | cpp/src/IceGrid/Parser.cpp:1621-1625 | only the line number changes, by one |
| ParserInput.ContinueLine | cpp/src/IceGrid/Parser.cpp:1627-1631 | only the continuation flag changes, to set |
| ParserInput.GetPrompt | cpp/src/IceGrid/Parser.cpp:1633-1647 | the continuation prompt appears iff a continuation was pending, and the flag is cleared |
| ParserInput.ContinuationPromptOnce | cpp/src/IceGrid/Parser.cpp:1627-1647 | a continuation shows the continuation prompt once, then the normal prompt |
| ParserInput.Error | cpp/src/IceGrid/Parser.cpp:1743-1761 | the error count goes up by one; the message carries file and line only when reading a script that is neither a command string nor a terminal |
| ParserInput.Warning | cpp/src/IceGrid/Parser.cpp:1763-1780 | as for errors, with "warning:" and without counting |
| ParserInput.Perform | cpp/src/IceGrid/Parser.cpp:1621-1780 | one parser callback counts an error only when it reports one, writes one line only for an error or warning, and never touches the command buffer |
| ParserInput.Run | cpp/src/IceGrid/Parser.cpp:1621-1780 | the callbacks in order leave the command buffer as it was |
| ParserInput.RunCountsErrors | cpp/src/IceGrid/Parser.cpp:1743-1780 | a run counts exactly its errors and emits one diagnostic per error or warning |
| ParserInput.CommandStringDiagnostics | cpp/src/IceGrid/Parser.cpp:1746-1753 | while a command string is parsed, diagnostics are never located |
| ParserInput.Start | cpp/src/IceGrid/Parser.cpp:1816-1825 | a parse starts without errors or continuation, at line 1 of no file |
| ParserInput.ParseString | cpp/src/IceGrid/Parser.cpp:1810-1836 | the status is failure when any error was reported, else the parser's own status, with one diagnostic per error or warning |
| ParserInput.ParseFile | cpp/src/IceGrid/Parser.cpp:1782-1808 | as for a command string |
| ParserInput.ScriptErrorsAreLocated | cpp/src/IceGrid/Parser.cpp:1746-1748 | reading a script (empty buffer, not a terminal), every reported error is written, at its place among the diagnostics, with the file and line the parser has reached at that point |
| ParserInput.ScriptErrorExample | cpp/src/IceGrid/Parser.cpp:1782-1808 | a script with one error on its first line fails with the message located at line 1 |
| ParserInput.RunAppend | cpp/src/IceGrid/Parser.cpp:1621-1780 | running two stretches of a parse in turn is running the second from where the first left off, with the diagnostics concatenated |
| ParserOutput.LineCount | cpp/src/IceGrid/Parser.cpp:1372-1382 | without -h or -t the count is 20; it is always a 32-bit integer |
| ParserOutput.PlanDump | cpp/src/IceGrid/Parser.cpp:1318-1392 | the usage error unless there is exactly one argument; an error for both -h and -t, for a non-positive count, and for -f with -h; a plan exactly when every check passes, with the mode the options ask for |
| ParserOutput.HeadCountRoundTrip | cpp/src/IceGrid/Parser.cpp:1365-1382 | `-h n` for a positive n plans the first n lines |
| ParserOutput.UnreadableCountKeepsDefault | cpp/src/IceGrid/Parser.cpp:1372-1382 | a -t count without digits leaves the default of 20 lines |
| ParserOutput.ReadChunk | cpp/src/IceGrid/Parser.cpp:1396-1406 | a read returns the next lines in order, at most 20, and fewer only at the end |
| ParserOutput.HeadLines | cpp/src/IceGrid/Parser.cpp:1394-1410 | the head mode prints exactly the first lineCount lines (all of them if fewer) |
| ParserOutput.TailLines | cpp/src/IceGrid/Parser.cpp:1412-1437 | the tail mode prints exactly the last lineCount lines (all of them if fewer) |
| ParserOutput.AllLines | cpp/src/IceGrid/Parser.cpp:1438-1453 | the plain mode prints every line |
| ParserOutput.NewlineOrEnd | cpp/src/IceGrid/Parser.cpp:1716-1720 | the first newline at or after from: no newline lies before it, and it is a newline unless it is the end |
| ParserOutput.PatchFailedText | cpp/src/IceGrid/Parser.cpp:1705-1741 | the report is the header followed by one bullet per reason, separated by newlines |
| ParserOutput.Bullets | cpp/src/IceGrid/Parser.cpp:1712-1739 | there is one bullet per reason, in order |
| ParserOutput.ContinuationLines | cpp/src/IceGrid/Parser.cpp:1723-1733 | the continuation loop writes something iff a newline remains, and each continuation starts on a new line indented by two |
| ParserOutput.ReasonText | cpp/src/IceGrid/Parser.cpp:1714-1734 | each reason starts with the bullet "- " |
| ParserOutput.ContinuationIsSplit | cpp/src/IceGrid/Parser.cpp:1723-1733 | the continuation loop prints each remaining line of a reason on its own line, indented by two |
| ParserOutput.ReasonTextIsBullet | cpp/src/IceGrid/Parser.cpp:1714-1734 | a reason is printed as "- " followed by its lines, each later line indented by two |
| ParserOutput.ReasonsJoin | cpp/src/IceGrid/Parser.cpp:1712-1739 | the reasons are printed as their bullets separated by newlines |
| ParserOutput.ReportException | cpp/src/IceGrid/Parser.cpp:1850-1932 | a patch failure with other than one reason is reported as a warning with the patch report; one reason is an error naming it; every other exception is an error |
| ParserOutput.PatchWarningKeepsStatus | cpp/src/IceGrid/Parser.cpp:1883-1894 | a patch failure on several nodes does not fail the command string; any other admin exception does |

## Left out

- Retry loops in `_ObjectDelD`: each `while(true)` body returns or throws on its first pass, so the model has no
  loop and a call leases at most once.
- `IceInternal.Direct`, the object adapter and servants: these are not part of this model. They appear as oracles.
  - The adapter's `lease` either grants a servant or throws.
  - Each servant operation returns a value or throws.
- `ObjectDelD.Dispatch`: does not model `initCause` chaining beyond recording the original throwable as the
  cause.
- Locking in `AdapterCache` (the `Lock sync` guards and the group's mutex): concurrency is not modelled.
- Logging and tracing in `AdapterCache`.
- The `ServerEntry` a server adapter points to: it is not part of this model.
- `ReplicaSelection.GetProxy`: the remote call that fetches an adapter's proxy through its server
  (`getProxy` on the `ServerEntry`) is the `lookup` oracle. Its failures are grouped into the skipped kinds and
  one other kind.
- `ReplicaSelection.Candidates`:
  - The Random policy's `random_shuffle` and the Adaptive policy's load-sorted order (float loads fetched from
    nodes) are both supplied as the `shuffled` parameter. The model does not prove that this parameter is a
    permutation.
  - For the Ordered policy, `std::sort` is not stable. The model uses a stable insertion sort, and the contract
    claims only "sorted and a permutation".
- `ReplicaSelection.ReplicaGroupProxies`: the group's lock is not modelled.
- `AdapterCache.ParsePriority`, `AdapterCache.Update` and `ParserOutput.LineCount`: `istream >> int` follows the
  C++98 library.
  - When extraction fails (no numeral, or a value outside 32 bits), the variable keeps its previous value.
  - Later libraries store 0 or the clamped value instead.
- `Text.Atoi`: the result is unbounded. An out-of-range `atoi` is undefined in C.
- `AdapterCache.NewReplicaGroup`: the load sample before `update` runs is taken as the 1-minute sample.
- The admin session and registry calls made by each `Parser.cpp` command:
  - the `_admin` and `_session` proxies, and the printing of descriptors, states and pids;
  - describe, diff and patch output.

  Only the argument checks and the request each command builds are modelled. `ParserCommands.Guard` covers the
  argument count of every command listed in `ParserCommands.Command`.
- Reading application descriptors from XML files (`DescriptorParser`), and the `node`, `registry`, `server` and
  `object` commands beyond their guard: these are not part of this model.
- Terminal and file input in `getInput`:
  - `readline`, `fgets` and `isatty`;
  - the Ctrl-C interrupt;
  - the yacc/flex parser itself and its globals.

  A parse is given as the sequence of error and warning actions and the parser's exit status.
- `ParserInput.ParseFile`: `parse(FILE*)` does not reset the command buffer, because its `_commands.empty()` call at 1791
  discards its result. The model therefore takes the buffer a previous parse left as a parameter, and diagnostics
  are located only when that buffer is empty. The model does not derive how a leftover buffer changes the actions
  the grammar performs. For example, a leftover ";" makes `getInput` report end of input at once (1520-1522).
- `ParserOutput.HeadLines` and `ParserOutput.TailLines`: `FileIterator::read(20)` is assumed to return full
  chunks until the end. The file is a sequence of lines.
- The `dump` follow loop (1455-1482): it waits on a timer and polls the file until interrupted, so only its
  start (`PlanDump`'s `follow` flag) is modelled.
- `IceUtil::Output` indentation state: the patch report's layout is modelled as text.
- PlanDump: assumes that opening the file iterator (1326-1360) succeeds. If the open fails, its exception is
  reported before the option checks, so `server dump stdout nosuch -h 5 -t 5` reports the missing server rather
  than the conflicting options. The header printed at 1362 and the iterator's `destroy()` (1489) are not
  modelled. In particular, the option errors' early returns (1370, 1379, 1391) skip that `destroy()`.
- AddApplicationCommand: takes the `-n`/`--no-patch` option already parsed. `IceUtil::Options::parse` and its
  `BadOptException` error (184-190) are not modelled, so an unknown option such as `application add app.xml -x` has
  no counterpart in the model.
- PlanDump: takes the `-f`, `-h` and `-t` options already parsed (`DumpOptions`). The option parser's
  `BadOptException` error (1310-1316) is not modelled.
- Guard: for `application patch` and `server patch`, the `-f` option is taken as already removed by the option
  parser. Its `BadOptException` error (395-401, 849-855) is not modelled.
- Guard: uses the corrected usage messages (`GuardMessage`). The messages the source prints are
  `GuardMessageAsWritten`, and the Findings table relates the two.
- UpdateApplicationCommand: its usage error is the corrected message naming `application update`. The source prints
  the message naming `application diff` (347), which is `GuardMessageAsWritten(ApplicationUpdate)` (see Findings).
- Perform: a `#line` directive runs the corrected `ScanPosition`. So after a bare `#line N`, `Run` and `ParseFile`
  keep the current file, while the source names the file after the number. `ScanPositionAsWritten` models that
  behaviour, and `BareLineDirective` shows the difference.
- ObjectDelD.Dispatch: `Direct.destroy()` is taken never to throw. In Java, an exception thrown from the `finally`
  block (43-46, 231-234) would replace the call's result; the model does not represent that.

## Findings

| source | as written | input that shows it | evidently intended | confidence | as-written member | corrected member |
|---|---|---|---|---|---|---|
| cpp/src/IceGrid/Parser.cpp:1516-1539 | `getInput` marks the end of a command string by leaving ";" in `_commands` (1535-1538), so a remaining text that is really ";" is taken for the end mark (1520-1522) | the command string "a;" read with a maximum chunk of one character, so that a chunk ends just before the final ';', reaches the lexer as "a" | the lexer receives the whole command string | not executed | ParserInput.FeedAsWrittenDropsSemicolon | ParserInput.Feed |
| cpp/src/IceGrid/Parser.cpp:1649-1691 | `scanPosition` on `#line N` without a file name searches for the file from the start of the number and takes the number as the file name | `#line 7` sets the current file to "7" | a directive without a file name keeps the current file | not executed | ParserInput.BareLineDirective | ParserInput.ScanPosition |
| cpp/src/IceGrid/Parser.cpp:345-349 | `updateApplication` and `removeServer` (765-769) print the usage message of `application diff` and `server start` | `application update` with no argument says "`application diff' requires at least one argument" | each command's usage message names that command | not executed | ParserCommands.GuardMessagesAsWrittenMisnamed | ParserCommands.Guard |
