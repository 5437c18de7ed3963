# OCaml debug adapter: translation layer

This project is a Dafny model of the translation layer of `OCamlDebugSession`, the debug
adapter that lets an IDE front end drive `ocamldebug` (file `src/debug/debug.ts`). The
adapter writes one text command at a time to the debugger. It splits the debugger's output
into responses at the `(ocd) ` prompt. It then turns those responses into the front end's
structures: run/step events, breakpoints, stack frames, source text and a lazily expanded
variable tree. Along the way it keeps session tables for source references, breakpoints and
variable handles.

Modules, leaves first:

- `Text` gives the JavaScript string operations the adapter relies on, with JavaScript's
  meaning: `indexOf`, `split`/`join` on one character, `trim` and the `\s` class, `+str`
  on captured digits, and `\r\n` normalisation.
- `Pipeline` models `ocdCommand` and `readUntilPrompt` as the class `CommandQueue`:
  - the promise chain `_wait` becomes a FIFO of pending jobs;
  - debugger standard output is the chunks given to `Feed`, and standard error the chunks
    given to `FeedStderr`;
  - standard input is the log `written`.
- `RunEvents` holds the front end's events and the run/step classifier `parseEvent`.
- `ModuleNames` covers `getModuleFromFilename` and the parser of the `info modules` reply.
- `BreakReply` holds the regular expression for the `break` reply, as a function, and the
  `break`/`delete` command texts.
- `Backtrace` decodes the `backtrace` reply into frames.
- `Listing` turns a `list` reply into source text (`retrieveSource`).
- `Values` holds the decoded value, `repr`, the expander's children, the advertised child
  counts and the `named`/`indexed` filters.
- `Session` has the class `DebugSession`, with the session's tables and requests:
  - the source registry (`_filenames`, `_filenameToPath`);
  - the breakpoint tables, the variable handle table and the `once` guard;
  - the command log `commands` and the event log `events`.

  Each request that issues debugger commands takes their framed replies as parameters. It
  appends the command lines to `commands`, in the order they are handed to `ocdCommand`.

## Model

| member | source | states |
|---|---|---|
| `Text.NormalizeOnlyDropsCarriageReturns` | src/debug/debug.ts:109 | normalising `\r\n` to `\n` only removes carriage returns: every other character survives in order, and text without `\r` is unchanged |
| `Text.NormalizeSplit` | src/debug/debug.ts:109 | normalising is chunk by chunk: two pieces normalise separately unless a `\r` ends the first and a `\n` starts the second |
| `Text.CrLfBecomesLf` | src/debug/debug.ts:109 | every `\r\n` pair becomes one `\n`, whatever surrounds it |
| `Text.LoneCrKept` | src/debug/debug.ts:109 | a `\r` not followed by `\n` is kept |
| `Text.IndexOf` | src/debug/debug.ts:132-135 | `indexOf` is the first position where the pattern occurs, and -1 exactly when it occurs nowhere |
| `Text.JoinSplit` | src/debug/debug.ts:667-677 | joining the pieces of a one-character split with that character gives back the string |
| `Text.SplitJoin` | src/debug/debug.ts:354 | splitting a join of separator-free pieces gives back the pieces |
| `Text.ToNumberOf` | src/debug/debug.ts:399-403 | `+` applied to the decimal text of a number gives back that number |
| `Pipeline.Frame` | src/debug/debug.ts:111-113 | the response is the buffer with the prompt cut off its end and at most one newline before the prompt removed |
| `Pipeline.FrameRoundTrip` | src/debug/debug.ts:111-113 | a response followed by a newline and the prompt frames back to that response, and so does one without a trailing newline followed directly by the prompt |
| `Pipeline.PromptInsideIsNotFramed` | src/debug/debug.ts:111 | a prompt followed by more output, which does not itself end with the prompt, does not end the response |
| `Pipeline.CommandQueue.Launch` | src/debug/debug.ts:334 | the session starts by reading the banner up to the first prompt, and writes nothing for it |
| `Pipeline.CommandQueue.Command` | src/debug/debug.ts:93-103 | a command is written at once when no command is in flight, and otherwise queued behind the earlier ones; FIFO order (`issued == completed + current + pending`) and "written = the completed and current commands" are kept |
| `Pipeline.CommandQueue.Feed` | src/debug/debug.ts:105-119 | a chunk is normalised and appended to the buffer, and the streaming callback sees the whole buffer; only when the buffer ends with the prompt does the command complete with the framed response, after which the next queued command and no other is written |
| `Pipeline.CommandQueue.Resolve` | src/debug/debug.ts:111-118 | a framed command completes with its response, the buffer is emptied and the oldest pending command becomes current and is written |
| `Pipeline.CommandQueue.FeedStderr` | src/debug/debug.ts:120-125 | a standard-error chunk that arrives while a command is listening is shown to the user, unless it is exactly `done.\n` |
| `RunEvents.ParseEvent` | src/debug/debug.ts:131-143 | `Program exit.` gives exactly one terminated event; otherwise `Program end.` gives the text after that marker as output, then terminated; otherwise one stop in thread 0, with reason `breakpoint` iff the text contains `Breakpoint:` and `step` otherwise |
| `RunEvents.EndReasonReported` | src/debug/debug.ts:134-138 | for `pre + "Program end." + reason` with no marker before it, the output event carries exactly `reason` |
| `RunEvents.StopReason` | src/debug/debug.ts:139-142 | with neither end marker, the stop reason is `breakpoint` exactly when the text mentions a breakpoint |
| `ModuleNames.Capitalize` | src/debug/debug.ts:147 | only a leading lower-case ASCII letter is upper-cased; the rest is unchanged |
| `ModuleNames.FirstNamed` | src/debug/debug.ts:148-152 | finds the first known module whose last dot-separated component is the given name, or reports that none has it |
| `ModuleNames.ModuleFromFilenameFirst` | src/debug/debug.ts:145-153 | the result is the first known module whose short name equals the file's candidate; the candidate itself when none does |
| `ModuleNames.BasenameOf` | src/debug/debug.ts:147 | `path.basename` of `dir/name` is `name`: every directory is dropped |
| `ModuleNames.CandidateOf` | src/debug/debug.ts:147 | the candidate of a bare `stem.ext` is the capitalised stem: the base name up to its first dot |
| `ModuleNames.CandidateOfPath` | src/debug/debug.ts:147 | the candidate of a full request path `dir/stem.ext` is the capitalised stem |
| `ModuleNames.ShortNameOf` | src/debug/debug.ts:149-150 | the short name of `Qualifier.Name` is `Name` |
| `ModuleNames.QualifiedModuleFound` | src/debug/debug.ts:145-153 | a request path `dir/list_map.ml` resolves to `Mylib.List_map`, not to `Stdlib.List` or the bare candidate: directories are dropped and trailing components are compared |
| `ModuleNames.ParseModules` | src/debug/debug.ts:351-355 | the module list of an `info modules` reply has at least one entry and no entry contains white space |
| `ModuleNames.ParseModulesRoundTrip` | src/debug/debug.ts:351-355 | `Used modules:` followed by space-separated names parses back to exactly those names |
| `BreakReply.FirstMatch` | src/debug/debug.ts:389 | a multi-line `exec` matches at the first line start where the expression matches, and at no earlier line start |
| `BreakReply.ParseBreakReplyFirst` | src/debug/debug.ts:389 | a reply stands for a breakpoint exactly when some line matches the `Breakpoint N at …: file F, line L, characters C-D` pattern, and then for the match on the first such line |
| `BreakReply.MatchReplyLine` | src/debug/debug.ts:389 | the pattern reads back the id, file, line and first character of a printed reply line |
| `BreakReply.ParseReplyLine` | src/debug/debug.ts:389-403 | a reply that opens with a breakpoint line gives that line's id, file, line and column |
| `BreakReply.NoMarkerNoBreakpoint` | src/debug/debug.ts:404-406 | a reply that never mentions `Breakpoint ` gives an unverified breakpoint |
| `BreakReply.LineLocation` | src/debug/debug.ts:443 | the argument of a line breakpoint starts with `@ ` |
| `BreakReply.LineLocationWords` | src/debug/debug.ts:443 | after `@ `, the words are exactly the module, the line and the column (empty when absent) |
| `BreakReply.BreakCommand` | src/debug/debug.ts:388 | the command is `break ` followed by exactly its argument |
| `BreakReply.DeleteCommand` | src/debug/debug.ts:414 | the command is `delete ` followed by decimal digits |
| `BreakReply.DeleteCommandReadsBack` | src/debug/debug.ts:414 | the argument of the `delete` command reads back as the breakpoint id |
| `Backtrace.MatchFrameText` | src/debug/debug.ts:513-521 | a printed frame line `#idx name file:line:col` decodes to that frame's index, file, line and column |
| `Backtrace.FramesAppend` | src/debug/debug.ts:512-523 | decoding is line by line: the frames of two blocks of lines are the first block's frames followed by the second's |
| `Backtrace.FramesFromLines` | src/debug/debug.ts:512-523 | every decoded frame is the decoding of one of the input lines, so there are never more frames than lines; lines that do not match are skipped |
| `Backtrace.FramesOfTexts` | src/debug/debug.ts:512-523 | the lines of printed frames decode to exactly those frames, in input order |
| `Backtrace.AsWrittenAgrees` | src/debug/debug.ts:504-510 | the callback as written and the corrected decoder agree wherever the callback returns; the callback fails exactly on a reply that trims to the bare header |
| `Backtrace.HeaderAloneThrows` | src/debug/debug.ts:504-510 | on the reply `Backtrace:` the callback as written throws, and the corrected decoder gives no frames |
| `Backtrace.ClosingNoteDropped` | src/debug/debug.ts:508-510 | a last line that contains the note about a function with no debugging information is not decoded |
| `Backtrace.LastLineKept` | src/debug/debug.ts:508-513 | when the last line does not contain that note, every line is decoded |
| `Backtrace.DecodeReply` | src/debug/debug.ts:504-523 | header, frame lines and closing note decode to the frames of the lines in between, and nothing else |
| `Listing.ListCommand` | src/debug/debug.ts:666 | the command is `list <module> 1 100000`, with the module text in the middle |
| `Listing.StripLineNumber` | src/debug/debug.ts:676 | only a leading run of digits followed by a space is cut; a line that does not start with a digit is kept whole |
| `Listing.StripNumberedLine` | src/debug/debug.ts:676 | stripping the number of a numbered line gives back its text |
| `Listing.RemoveMarker` | src/debug/debug.ts:676 | only the first current-event marker (`<` `|a|` `>` or its `b` form) is cut; a line without a marker is unchanged |
| `Listing.RemoveInsertedMarker` | src/debug/debug.ts:676 | a marker inserted where no `<` precedes it is the one removed again |
| `Listing.RetrieveListing` | src/debug/debug.ts:664-677 | a numbered listing, with markers and the closing `Position out of range.` notice, reads back as the module's lines joined by line breaks: the notice is dropped and each listed line is cleaned to its text |
| `Values.ReprIgnoresContents` | src/debug/debug.ts:531-546 | the rendering never looks inside arrays, lists or records: it equals the rendering of the value with their contents dropped |
| `Values.TupleName` | src/debug/debug.ts:554 | the names `%1`, `%2`, … of tuple components are never all digits, so they count as named |
| `Values.CreateVariable` | src/debug/debug.ts:564-592 | the variable carries the name and rendering, has a handle exactly when the value is not plain, and advertises the value's indexed/named counts |
| `Values.ChildVariablesHandles` | src/debug/debug.ts:548-589 | the expander makes one variable per child, carrying the children's names in order; handles are distinct and counted up from the next free handle, one per child that has children of its own |
| `Values.ChildCounts` | src/debug/debug.ts:548-586 | the advertised counts equal what the filters give: `con` 1 indexed; tuple and record one named child per item; list and array one indexed child per element |
| `Values.FilteredMembers` | src/debug/debug.ts:623-638 | the filter keeps exactly the children whose name passes: `named` keeps the non-digit names; `indexed` keeps digit names, within `start ≤ i < start+count` when the count is non-zero |
| `Values.FilteredFrom` | src/debug/debug.ts:623-638 | every kept variable comes from the input and passes the filter, so filtering never adds variables |
| `Values.FilteredKeeps` | src/debug/debug.ts:623-638 | every input variable that passes the filter is kept |
| `Values.IndexedWindow` | src/debug/debug.ts:626-637 | with a positive count, the indexed filter on an array or list gives exactly the elements from `start` (0 when absent) to `start + count` |
| `Values.FilterExample` | src/debug/debug.ts:624-637 | of children `0`, `1`, `2`, `x`, `named` keeps only `x`, and `indexed` with start 1 and count 1 keeps only `1` |
| `Session.Position` | src/debug/debug.ts:159 | `indexOf` on `_filenames`: the first index holding the name, -1 exactly when it is absent |
| `Session.WaitingMessage` | src/debug/debug.ts:360-361 | there is a message exactly when the buffer contains `Waiting for connection...` |
| `Session.WaitingMessageLine` | src/debug/debug.ts:360-361 | the message runs from the first notice to the end of its line |
| `Session.VerifiedIdsMembers` | src/debug/debug.ts:420-427 | an id is deleted exactly when a verified breakpoint of the list carries it |
| `Session.AllAgreeAt` | src/debug/debug.ts:442-447 | the stored breakpoints agree position by position with the replies |
| `Session.BreakCommandsAt` | src/debug/debug.ts:442-445 | the k-th `break` command carries the k-th requested breakpoint |
| `Session.KeptChildren` | src/debug/debug.ts:623-638 | filtering the children's variables keeps a variable exactly when the filter keeps its child |
| `Session.DebugSession.Launch` | src/debug/debug.ts:330-335 | the breakpoint tables start empty, the handle table fresh and the once guard unset |
| `Session.DebugSession.Handshake` | src/debug/debug.ts:335-358 | `set loadingmode manual`, `goto 0` and `info modules` are issued in that order; the module list is the parsed reply, and then the initialized event is sent |
| `Session.DebugSession.ReadModules` | src/debug/debug.ts:350-355 | `_modules` becomes the parsed `info modules` reply |
| `Session.DebugSession.OnGotoStream` | src/debug/debug.ts:337-347 | the first buffer that shows the connection notice reports it (remote) or launches the debuggee (local); every later call does nothing, so the debuggee is launched at most once |
| `Session.DebugSession.ConfigurationDone` | src/debug/debug.ts:367-384 | the script is sourced first when given; then `goto 0` when stopping on entry and `run` otherwise, never both; the reply is classified into events |
| `Session.DebugSession.Run` | src/debug/debug.ts:470-493 | continue, next, step in, step out and step back issue `run`, `next`, `step 1`, `finish`, `backstep` and classify the reply |
| `Session.DebugSession.GetSource` | src/debug/debug.ts:155-172 | a file with a confirmed path gets that path and `_filenames` is unchanged; a known file keeps reference index+1; a new file is appended and gets reference old length + 1; earlier entries never change; the source it returns resolves back to its file |
| `Session.ReferenceResolves` | src/debug/debug.ts:433-439 | a synthetic reference handed out by `getSource` names its file's module in `setBreakPointsRequest`, however many files are registered later |
| `Session.DebugSession.RecordPath` | src/debug/debug.ts:394-396 | a path is recorded for a file only if none was recorded and the request path ends with the file name |
| `Session.DebugSession.SetBreakpoint` | src/debug/debug.ts:386-410 | issues `break <param>`; the breakpoint is verified iff the reply matches, and then carries its id, line, column and file; an unverified one leaves the source registry as it was; a verified one records the file's path exactly as `RecordPath` does and its source is what `getSource` then gives |
| `Session.DebugSession.Locate` | src/debug/debug.ts:391-403 | a matched reply gives a verified breakpoint with the reply's id, line, column and file; the file's path is recorded iff none was and the request path ends with the file name; the breakpoint's source is what `getSource` gives, the file being appended to `_filenames` only when it has neither a path nor an entry |
| `Session.DebugSession.ClearBreakpoints` | src/debug/debug.ts:420-427 | one `delete <id>` per verified breakpoint, in list order, and nothing for the unverified ones |
| `Session.DebugSession.SetAll` | src/debug/debug.ts:442-447 | one `break` per request, in request order; one breakpoint per request, each agreeing with its reply; the registry only grows: each new path is the request path, for a verified breakpoint's file it ends with, each new `_filenames` entry is a verified breakpoint's file, and every verified breakpoint's source resolves in the final registry |
| `Session.DebugSession.SetBreakpoints` | src/debug/debug.ts:429-451 | all deletes of the scope's earlier verified breakpoints come before the `break` commands; the scope's list is replaced by one of the request's length, with the registry changed only as `SetAll` allows; other scopes are untouched; an empty request clears the scope |
| `Session.DebugSession.SetFunctionBreakpoints` | src/debug/debug.ts:453-468 | the same reconciliation for the single function-breakpoint list, `break <name>` per function; with no request path, no file path is ever recorded |
| `Session.DebugSession.StackTrace` | src/debug/debug.ts:500-528 | issues `backtrace 100`; one frame per decoded frame line, in order, with its index, file, line and column; each frame's source resolves in the registry, which only grows, by the frames' own files |
| `Session.DebugSession.FramesOf` | src/debug/debug.ts:512-523 | each decoded frame becomes a stack frame with that frame's source as `getSource` gives it, keeping order; every new `_filenames` entry is one of the frames' files |
| `Session.DebugSession.CreateVariable` | src/debug/debug.ts:564-592 | a plain value takes no handle; any other value takes the next handle, and the table keeps the value under it |
| `Session.DebugSession.NewHandle` | src/debug/debug.ts:589 | a fresh handle not in the table is given out, and the table maps it to the value |
| `Session.DebugSession.Evaluate` | src/debug/debug.ts:644-662 | issues `frame <id>`, with an empty argument when no frame is named, then `print (<expr>)`; a body exactly when the value was decoded, with the handle, type and counts of the variable `createVariable` makes, the counter advancing by one exactly for a value with children; the shown text is the type except for plain and constructor values, which show their rendering |
| `Session.DebugSession.Expand` | src/debug/debug.ts:548-562 | the expander's variables are exactly the children's variables, in order; handles are given out from the next free one, the counter advancing by one per child with children, and earlier handles keep their values |
| `Session.DebugSession.Variables` | src/debug/debug.ts:612-642 | an unknown handle gives no variables; otherwise the result is exactly the filtered children's variables, in order, and the counter advances by one per child with children; the handle table always holds exactly the handles below the counter |
| `Session.DebugSession.SourceRequest` | src/debug/debug.ts:684-690 | a reference in range lists the file's module and returns the read-back listing; one out of range throws |
| `Session.DebugSession.Disconnect` | src/debug/debug.ts:197-204 | remote mode is off, the breakpoint tables are gone, the handle table is reset and the source registry is emptied |

## Left out

- Spawning the debugger and the debuggee, piping their streams, and their exit hooks are
  left out (src/debug/debug.ts:262-281, 319-328). So is the `kill`/`quit` sequence on
  disconnect. These are operating-system I/O: debugger output is modelled as chunks, and
  commands as a log.
- Character decoding with iconv and the encoding checks are left out. They belong to a
  foreign library.
- The free-port choice, the `CAML_DEBUG_SOCKET` wiring and `runInTerminalRequest` are left
  out. They are network and IDE plumbing. The session keeps only the remote-mode flag.
- `loadEnv` (environment files) and the `noDebug` launch path are left out. They are
  configuration glue, not translation logic.
- `initializeRequest` and `threadsRequest` are left out. They only send constant
  capability and thread answers.
- The `log` calls and the `_showLogs` output events are left out. They are diagnostics
  only.
- The value grammar `evalResultParser.parse` is external and is not part of this model.
  Its result is an input of `Session.DebugSession.Evaluate`: a name, a decoded value and a
  type, or nothing when parsing fails. The offset and peek text of the failure diagnostic
  depend on the parser's exception shape and are left out.
- `fs.existsSync(path.resolve(...))` in `getSource` is the parameter `onDisk`: a snapshot of
  the files that exist next to the program, each with its resolved path.
- `Handles` from vscode-debugadapter is modelled as a map from handle to value, with the
  next handle starting at 1000 and reset on disconnect. The `Expander` closure is modelled
  by the value it closes over. Expansion re-applies `createVariable` to that value's
  children. `Expander.setValue`, which always throws, is left out.
- Asynchronous interleaving is left out. Each request method runs its commands
  contiguously, and the replies are its parameters. Events from the debuggee that arrive
  while a command is in flight are not modelled. `Pipeline.CommandQueue` models the
  framing and the queue on their own.
- Session.DebugSession.Handshake: the reply to `goto 0` and its ordering with the
  debuggee launch are not tied together. The streaming callback of `goto 0` is the
  separate method `OnGotoStream`.
- Session.DebugSession.StackTrace: decodes with the corrected decoder `Backtrace.DecodeReply`.
  On the bare reply `Backtrace:` the source's callback throws instead (see Findings): no
  response is sent and the rejected `_wait` chain skips every later command. The model
  returns no frames there and the queue goes on.
- Backtrace.MatchFrame and Text.ToNumber: `+` is modelled for decimal digit strings only,
  and any other text reads as NaN (None). The line and column captures of a frame line are
  any colon-free text, so there the model departs from JavaScript, which reads `1e1` as
  10, `0x1a` as 26, `-3` as -3 and `1.5` as 1.5. Well-formed `ocamldebug`
  output prints decimal digits there. The `break` reply captures are `\d+`, where the two
  agree.
- Session.DebugSession.Evaluate: a `frameId` that is not an integer is not modelled; a
  missing one gives the command `frame ` with an empty argument, as `join` does.
- ModuleNames.Basename and ModuleNames.ModuleFromFilename: only `/` separates path
  components, as in POSIX `path.basename`. The `\` separator of Windows paths is not
  modelled.
- `parseInt` and `+` on a long string of digits lose precision beyond 2^53 in JavaScript.
  The model reads them as unbounded naturals.
- The regular expressions are modelled for the inputs the adapter meets. JavaScript's
  `^` and `$` line terminators and the `\s` class are written out in `Text`.

## Findings

| source | as written | input that shows it | evidently intended | confidence | as-written member | corrected member |
|---|---|---|---|---|---|---|
| src/debug/debug.ts:504-510 | after the header line is dropped, `lines[lines.length - 1].includes(...)` reads the last line even when none is left. The callback then throws a TypeError, which rejects the `_wait` chain, so every later debugger command is skipped | the `backtrace 100` reply `Backtrace:` | a reply with no frame lines gives an empty frame list | not executed; the behaviour follows from JavaScript's semantics for `undefined.includes` and rejected promises | `Backtrace.HeaderAloneThrows` | `Backtrace.DecodeReply` |
