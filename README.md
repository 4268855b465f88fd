# A verified model of the job-control shell core

This project models the sequential core of a small interactive Unix shell
whose comments and messages are in Spanish. The shell:

- reads a line with its own line editor and keeps a command history;
- parses the line into a job, a pipeline of processes;
- tracks every job and process through the wait statuses the kernel reports;
- runs built-ins: `fg`, `bg`, `jobs`, round-robin `rr`, `historial` and others.

The files and what each one models:

- `defs.dfy`: the constants of `include/defs.h` (`MAX_LINE_COMMAND = 256`, `MAX_ARGS = 32`, the word `historial`) and an `Option` type.
- `cstrings.dfy`: the C library functions the core relies on: a C string inside a buffer (`strlen`), `strcpy`, `atoi`, `isprint`.
- `command_parser.dfy`: the tokenizer `prepare_job`.
  - `Parse` is a reference definition that reads one token at a time.
  - `PrepareJob` is the character-by-character loop of the C code, and is proved equal to `Parse`.
  - Lemmas state the tokenizing rules: words, quotes, pipes, `&`, the `MAX_ARGS` bound.
- `jobs_control.dfy`:
  - the process state machine (`next_proc_state`, `mark_process`);
  - the job status roll-up (`is_job_n_*`, `analyce_job_status`);
  - the job list (`create_job`, `remove_job`, `search_job_by_process`).

  A `Job` is a class whose fields are updated in place. The list is a class holding a sequence of distinct jobs.
- `history.dfy`: the command history, a doubly linked list of heap nodes.
  - Each node is a 256-character line buffer with a dirty flag and a backup copy.
  - `Valid()` states the linkage, the ends and the node shape.
- `line_editor.dfy`: the buffer edits of `src/inputModule.c`.
  - They work in place on the line's `array<char>`: `fill`, `shiftRight`, `shiftLeft`, `characterProcess`, `borrar`, `suprimir` and the arrows.
  - `parse_background_characters` moves the `&`/`+` markers to the end of the line.
  - Also modelled: the `strstr` test at the start of `parse_history_commands`.
- `shell.dfy`: the rules of `src/shell.c` that do not depend on the operating system:
  - selecting the n-th background job for `fg`/`bg`;
  - looking up a built-in;
  - round-robin rotation;
  - the `updateJobs` sweep and its notify rule;
  - `put_job_background`;
  - the notification sweep `notify_and_clean_jobs`;
  - the argument handling of `rr`;
  - the status label of `print_job_state`.

Some defects of the source are modelled in their intended form rather than as written:

- `createNode` has no `return` (src/history.c:36-48). The constructor returns the node.
- `remove_job` dereferences the head of an empty list (src/jobs_control.c:155-156). `RemoveJob` leaves an empty list unchanged.
- `notify_and_clean_jobs` reads `job->foreground` and `job->next` of a job it has just freed (src/shell.c:561-572). The model reads what it saw before the removal.
- `prepare_job` writes the closing NULL of an argument vector only for the last stage (src/jobs_control.c:79). A stage closed by `|` before any argument, as in `| ls` or `a || b`, has an unset `args[0]`. `Stage.args` holds the arguments without the NULL; Findings has the as-written vector.
- The tokenizer loop is bounded by `MAX_LINE_COMMAND` rather than `MAX_ARGS` (src/jobs_control.c:38), which would write past the 33-slot argument vector. The model stops a stage at `MAX_ARGS` arguments.

Some quirks are kept exactly as written:

- The stage after a `|` starts counting at `argc = 1` (src/jobs_control.c:48).
- Only an `&` where a token would start makes the job background. An `&` anywhere else still ends the scan.
- A token is quoted only when its first character is a quote. The `offset <= 1` test then re-reads that first character, so the search for the closing quote starts at the token's third character (src/jobs_control.c:49-51). A quote right after the opening one does not close the token.

The defects found while proving the line editor and the tokenizer are listed under Findings. Each has an as-written member and a corrected one.

## Model

| member | source | states |
|---|---|---|
| CStrings.CStr | src/inputModule.c:271 | The C string of a buffer is the longest NUL-free prefix; when shorter than the buffer, a NUL follows it. |
| CStrings.CStrAt | src/inputModule.c:271 | A buffer whose first NUL is at n holds exactly its first n characters. |
| CStrings.Atoi | src/shell.c:491 | `atoi` is negative only after a leading minus sign, and nonzero only when the argument holds a digit. |
| CStrings.IsPrint | src/inputModule.c:149 | A printable character is never one of the keys the editor handles itself (NUL, Enter, DEL, escape, the Emacs control keys), and never white space other than the blank. |
| CStrings.AtoiDecimal | src/shell.c:484-503 | `atoi` reads back every non-negative number `printf("%d")` writes, so `fg 2` selects job 2. |
| CStrings.AtoiNoNumber | src/shell.c:488-491 | `atoi` gives 0 for an argument that does not start with a sign or a digit. |
| CStrings.StrCpy | src/history.c:113-122 | `strcpy` writes the source and a NUL at the start of the buffer, leaves the rest untouched, and the buffer then holds exactly the source. |
| CommandParser.TokenEnd | src/jobs_control.c:49-67 | The end of a token is the first delimiter or halting character (`&`, NUL) at or after the start; nothing before it is either. |
| CommandParser.ReadChar | src/jobs_control.c:40-67 | One pass of prepare_job's loop keeps the loop invariant: the unread rest of the line parses into what the whole line parses into; the read position strictly advances. |
| CommandParser.PrepareJob | src/jobs_control.c:29-81 | The imperative tokenizer computes exactly the reference parse `Parse(cmd)`. |
| CommandParser.ScanSpace | src/jobs_control.c:41-42 | A space where a token would start is skipped. |
| CommandParser.ScanPipe | src/jobs_control.c:43-48 | A pipe character where a token would start closes the stage; the next stage starts empty with argc 1. |
| CommandParser.ScanQuoted | src/jobs_control.c:49-63 | A quoted token runs to the same quote and keeps both quote characters. |
| CommandParser.ScanWord | src/jobs_control.c:52-63 | A plain token ends at the next space, which is not kept. |
| CommandParser.ScanCut | src/jobs_control.c:70-76 | A token cut by NUL or `&` is kept as far as it was read and ends the parse. |
| CommandParser.ScanBlanks | src/jobs_control.c:41-42 | Leading and repeated blanks produce no argument. |
| CommandParser.ScanFull | src/jobs_control.c:72 | A stage holding MAX_ARGS arguments ends the scan; the job stays in the foreground. |
| CommandParser.ScanPlainWord | src/jobs_control.c:52-63 | A plain word followed by a space becomes the next argument. |
| CommandParser.ScanLastWord | src/jobs_control.c:72-76 | A plain word at the end of the line becomes the last argument. |
| CommandParser.ScanQuotedWord | src/jobs_control.c:49-63 | A quoted token, quotes included, becomes the next argument; the other quote kind and spaces inside it are literal. |
| CommandParser.ScanTokenGap | src/jobs_control.c:41-63 | A token and the blanks after it add exactly that token to the stage. |
| CommandParser.ScanWordsThen | src/jobs_control.c:38-63 | A run of tokens that fits the stage adds all of them, in order. |
| CommandParser.ScanTokenStop | src/jobs_control.c:38-76 | A token after which the stage is full, or a final plain word, ends the parse with that token as the last argument. |
| CommandParser.ScanWordsEnd | src/jobs_control.c:38-79 | The tokens up to the end of the line: the first MAX_ARGS - argc become arguments in order, the rest are dropped. |
| CommandParser.ParseLine | src/jobs_control.c:29-81 | A line of blank-separated tokens is one foreground stage whose arguments are the tokens in order, with no empty arguments, truncated to MAX_ARGS. |
| CommandParser.ParsePipeline | src/jobs_control.c:43-48 | Two token lines joined by a pipe character give two stages in order; the second counts argc from 1. |
| CommandParser.ParseBackground | src/jobs_control.c:70-71 | An `&` where a token would start sets background; everything after it is discarded. |
| CommandParser.ParseShape | src/jobs_control.c:29-81 | Every line parses into at least one stage. Each stage has at most MAX_ARGS arguments, leaving a slot for a closing NULL. Each argument is nonempty and holds no `&` or NUL. argc counts the arguments, plus one after a pipe. |
| CommandParser.Argv | src/jobs_control.c:15-19 | The intended argument vector of a stage: its arguments in order, then exactly one NULL. |
| CommandParser.ArgvAsWritten | src/jobs_control.c:76-79 | The vector as written is terminated exactly when the stage is the last one or has an argument, and then equals the intended one. |
| CommandParser.LeadingPipeUnterminated | src/jobs_control.c:42-48 | `\| ls` parses into two stages, and the first has no arguments and no terminated vector. |
| CommandParser.ParseArgvTerminated | src/jobs_control.c:29-81 | With the closing NULL written for every stage, every stage of every line has a vector of at most MAX_ARGS + 1 slots whose only NULL is the last. |
| JobsControl.NextProcState | src/jobs_control.c:228-250 | The process state machine, one clause per transition. Ready starts running on any report. Stopped runs again when continued. Running stops with the stop signal as info. Running or Stopped completes with the exit code, or is signaled with the signal. Every other pair leaves the process unchanged: ended processes, a continued running one and a stopped one stopped again. Only state and info ever change. |
| JobsControl.StopThenContinue | src/jobs_control.c:228-250 | Stopping a running process and then continuing it gives it back, with the stop signal recorded in info. |
| JobsControl.EndsAfterTermination | src/jobs_control.c:228-250 | An exit or kill notification leaves a process ended, holding the exit code or the signal unless it had already ended. |
| JobsControl.FirstPid | src/jobs_control.c:252-266 | The index of the first process with a pid, or -1 exactly when none has it. |
| JobsControl.Marked | src/jobs_control.c:252-266 | mark_process on process values: the first process with the pid takes its next state; every other process, and every process when no pid matches, is unchanged. |
| JobsControl.Job.MarkProcess | src/jobs_control.c:252-266 | The new process list is `Marked` of the old one: only the first process with the pid takes its next state; an unmatched pid changes nothing. |
| JobsControl.IsJobNRunning | src/jobs_control.c:167-180 | True exactly when some selected process is running. |
| JobsControl.CountState | src/jobs_control.c:207-225 | The count is positive exactly when some selected process is in that state. |
| JobsControl.IsJobNStopped | src/jobs_control.c:207-225 | True exactly when some selected process is stopped and none is running. |
| JobsControl.CompletedFrom | src/jobs_control.c:182-205 | The scan from index i: finished exactly when every selected process has ended; reports exactly the first killed process when all before the first abnormal one completed. |
| JobsControl.IsJobNCompleted | src/jobs_control.c:182-205 | Finished exactly when every selected process has ended; the reported process is exactly the first that did not complete normally, when it was killed. |
| JobsControl.SignaledWitness | src/jobs_control.c:182-205 | When all selected processes have ended and one was killed, there is a first abnormal process and it was killed. |
| JobsControl.SignaledReported | src/jobs_control.c:268-287 | When every process has ended and one was killed, the completion scan reports a killed process. |
| JobsControl.JobStatus | src/jobs_control.c:268-287 | The roll-up is never Ready. It is Signaled iff all processes have ended and one was killed. It is Completed iff all completed. It is Stopped iff one has not ended, one is stopped and none runs. Otherwise it is Running. |
| JobsControl.Job.AnalyzeJobStatus | src/jobs_control.c:268-287 | The job status becomes the roll-up of its processes; info moves to the first killed process the scan reports, else stays. |
| JobsControl.ProcsOf | src/jobs_control.c:22-27 | One fresh process (no pid, Ready) per parsed stage, in order. |
| JobsControl.Job.constructor | src/jobs_control.c:121-142 | A new job is foreground unless the parse says background, with gpid 0, Ready, notify and cargarModo 0, one process per stage, and info at the last process. |
| JobsControl.CreateJob | src/jobs_control.c:121-142 | A NULL list or command gives NULL and changes nothing. Otherwise a fresh job for the command is appended at the tail, and earlier jobs keep their order. The new job is Ready and in the parsed foreground mode, has one Ready process per stage, and reports into its last process. |
| JobsControl.EmptyCommand | src/jobs_control.c:29-81 | The empty command still makes a job: one foreground stage with no arguments, so `args[0]` is NULL. |
| JobsControl.SearchJobByProcess | src/jobs_control.c:289-309 | The first job, in list order, with a process of that pid; NULL exactly when no job has one. |
| JobsControl.FirstJobWith | src/jobs_control.c:289-309 | The index of the first job with a process of that pid, or -1 exactly when there is none. |
| JobsControl.FirstGpid | src/jobs_control.c:144-165 | The index of the first job with that gpid, or -1 exactly when there is none. |
| JobsControl.JobList.constructor | src/jobs_control.c:83-85 | A new job list is empty. |
| JobsControl.JobList.RemoveJob | src/jobs_control.c:144-165 | The list loses exactly its first job with that gpid; with no such job (or an empty list) it is unchanged; jobs stay distinct. |
| JobsControl.RemoveUndoesAppend | src/jobs_control.c:144-165 | Removing the gpid of a job just appended with a new gpid gives the old list back. |
| JobsControl.WithoutFirstKeepsOrder | src/jobs_control.c:144-165 | Removal keeps the length iff no job has the gpid; otherwise exactly one job with that gpid is cut out and the others keep their order. |
| JobsControl.DistinctWithout | src/jobs_control.c:144-165 | Unlinking one job keeps the list free of duplicates. |
| JobsControl.DistinctAppend | src/jobs_control.c:121-142 | Appending a job the list does not hold keeps it free of duplicates. |
| CommandHistory.Node.constructor | src/history.c:36-48 | A new node holds the given command, or the empty line, and its links; it is clean and has no backup. |
| CommandHistory.Node.ProtectEntry | src/history.c:147-150 | Only the dirty flag is cleared. |
| CommandHistory.Node.IsEmptyEntry | src/history.c:157-159 | True exactly when the line's text is empty, i.e. its first cell is NUL. |
| CommandHistory.Node.Dirty | src/history.c:103-111 | The first edit of a clean line without backup stores its text as backup and marks it dirty; any other line is unchanged (idempotent). |
| CommandHistory.Node.Restore | src/history.c:113-122 | A dirty line gets its backup text back, loses the backup and is clean. The buffer cells after the new terminator keep their old contents. A clean line is unchanged. |
| CommandHistory.EditThenRestore | src/history.c:103-122 | Snapshot, overwrite the text, restore: the line holds its original text and is clean without backup. |
| CommandHistory.History.constructor | src/history.c:13-16 | A new history is valid and empty, with first and last NULL. |
| CommandHistory.History.Append | src/history.c:51-64 | A fresh clean node holding the command becomes last, linked after the old last; first is set if the history was empty; earlier nodes keep their order. |
| CommandHistory.Node.IsUnprotectEntry | src/history.c:152-154 | A line is unprotected exactly when it is dirty with no backup. A clean line, or one whose text has been backed up, never is. |
| CommandHistory.History.AppendUnprotectEntry | src/history.c:66-69 | A fresh last node that is dirty without backup, so isUnprotectEntry holds for it. |
| CommandHistory.History.NextCommand | src/history.c:79-84 | The cursor moves to the next node, NULL after the last; NULL stays NULL. |
| CommandHistory.History.PrevCommand | src/history.c:86-91 | The cursor moves to the previous node, NULL before the first; NULL stays NULL. |
| CommandHistory.History.NextThenPrev | src/history.c:79-91 | Going down then up returns to the same line. |
| CommandHistory.History.CleanHistory | src/history.c:93-101 | Afterwards no node is dirty. Every node that was dirty holds its backup text again, without a backup. The others are untouched. Requires that no node is dirty without a backup. |
| CommandHistory.History.RemoveLast | src/history.c:124-143 | Exactly the last node is dropped. An empty history is unchanged. Removing the only node makes first and last NULL. Otherwise the old second-to-last node is last, with no successor. |
| LineEditor.Fill | src/inputModule.c:66-72 | The first `length` cells take the character; the others are untouched. |
| LineEditor.FilledEmpty | src/inputModule.c:66-72 | A buffer filled with NULs holds the empty line. |
| LineEditor.ShiftRight | src/inputModule.c:97-105 | Below MAX_LINE_COMMAND, `buff[pos..length-1]` moves to `buff[pos+1..length]` and the cells before pos are unchanged; at the bound nothing moves. |
| LineEditor.ShiftLeft | src/inputModule.c:115-122 | The buffer after the left shift: cells from pos-1 take their right neighbour for as long as the loop runs (up to the terminator or length). |
| LineEditor.LeftRunOnString | src/inputModule.c:115-122 | On a NUL-terminated line the shift runs over the rest of the text and its terminator. |
| LineEditor.ErasedRemoves | src/inputModule.c:115-122 | On a line holding t, the left shift from pos deletes exactly the character at pos-1. |
| LineEditor.ShiftedLeftRemoves | src/inputModule.c:115-122 | What ShiftLeft leaves in a buffer holding t is a buffer holding t without the character before pos. |
| LineEditor.ShiftedThenStored | src/inputModule.c:154-155 | shiftRight followed by the store at the cursor is the typed buffer. |
| LineEditor.TypedInserts | src/inputModule.c:147-161 | When the cell after the terminator is NUL, typing c inserts c at the cursor into the text. |
| LineEditor.ErasedTyped | src/inputModule.c:214-226 | Typing a character and then deleting it with backspace gives back the exact buffer. |
| LineEditor.CharacterProcess | src/inputModule.c:147-161 | A printable character with the cursor below the last cell is written at the cursor after shiftRight. Cursor and length grow by one, and the line is snapshotted on its first edit. Any other character changes nothing. |
| LineEditor.ShiftLeftDeletes | src/inputModule.c:214-226 | The left shift on an edited line deletes the character before pos and leaves a valid editor state. |
| LineEditor.Borrar | src/inputModule.c:214-226 | With the cursor past 0, the character before it is deleted, cursor and length drop by one, and the line is snapshotted on its first edit; at 0 nothing changes. |
| LineEditor.Suprimir | src/inputModule.c:237-248 | With the cursor before the end, the character under it is deleted, length drops by one, the cursor stays; at the end nothing changes. |
| LineEditor.LeftArrow | src/inputModule.c:191-196 | One place left, never below 0. |
| LineEditor.RightArrow | src/inputModule.c:198-203 | One place right, never past the length. |
| LineEditor.ArrowsInverse | src/inputModule.c:191-203 | Left then right, or right then left, returns to the same cursor wherever both can move. |
| LineEditor.FullLineLosesTerminator | src/inputModule.c:149 | With the cursor guard as written, a character typed into a line of 255 characters leaves the buffer without any NUL. |
| LineEditor.TypingJoinsLeftover | src/inputModule.c:147-161 | Typing at the end of a line with a leftover character after its terminator joins that character to the text. |
| LineEditor.SafeCharacterProcess | src/inputModule.c:147-161 | With the length bound and a terminator written after the text, typing always inserts c at the cursor and the line holds exactly the new text. |
| LineEditor.MarkerSpan | src/inputModule.c:274 | `strcspn(cmd, "&+")`: a marker-free prefix, followed by a marker when shorter than the text. |
| LineEditor.Strip | src/inputModule.c:276-296 | The scan never lengthens the text. |
| LineEditor.StripClean | src/inputModule.c:276-296 | The scan leaves no marker; the flag is `+` iff a `+` was seen, NUL iff no marker was; a text with a marker gets shorter. |
| LineEditor.Background | src/inputModule.c:267-308 | A line without markers is unchanged. Otherwise the result is marker-free text followed by a single marker, which is `+` iff the line held a `+`. |
| LineEditor.Closed | src/inputModule.c:298-304 | The close ends with the flag, after marker-free text. |
| LineEditor.StripFree | src/inputModule.c:276-296 | The scan keeps a marker-free line whole. |
| LineEditor.BackgroundOfSpaced | src/inputModule.c:298-304 | When the kept text ends with a space, the flag follows it directly. |
| LineEditor.BackgroundOfUnspaced | src/inputModule.c:298-304 | When the kept text does not end with a space, a space and then the flag follow it. |
| LineEditor.BackgroundTrailing | src/inputModule.c:267-308 | A line already ending in ` &` keeps its form. |
| LineEditor.StripMoves | src/inputModule.c:276-296 | The scan of `t & u` keeps `t u` and sets the flag `&`. |
| LineEditor.BackgroundMoves | src/inputModule.c:267-308 | `t & u` becomes `t u &`: the marker and one space after it move to the end. |
| LineEditor.StripAsWritten | src/inputModule.c:276-296 | The scan as written (skipping the character that slides into a removed marker's place) keeps marker-free lines whole and sets no flag exactly when there is no marker. |
| LineEditor.BackgroundAsWritten | src/inputModule.c:267-308 | As written: marker-free lines are unchanged. The read of `cmd[-1]` happens exactly when nothing is left but markers and their spaces. Otherwise the line ends in a marker. |
| LineEditor.AdjacentMarkersAsWritten | src/inputModule.c:281-296 | As written, `a &+` becomes `a + &`: the `+` is skipped and the flag stays `&`. |
| LineEditor.AdjacentMarkers | src/inputModule.c:281-296 | Examining every character, `a &+` becomes `a +`. |
| LineEditor.MarkerOnlyAsWritten | src/inputModule.c:298 | As written, the line `&` makes the close read before the buffer. |
| LineEditor.MarkerOnly | src/inputModule.c:298-304 | Skipping the space on empty text, `&` stays `&`. |
| LineEditor.Dropped | src/inputModule.c:281-293 | A marker step keeps the text before the marker and drops the marker and one space after it. |
| LineEditor.DropMarker | src/inputModule.c:281-293 | In place, the marker at cur and a space after it leave the buffer, which then holds the shorter text. |
| LineEditor.AppendFlag | src/inputModule.c:298-304 | In place, the buffer ends up holding the kept text, a space unless it already ends in one, and the flag. |
| LineEditor.StripAtMarker | src/inputModule.c:281-296 | At a marker the scan goes on with the rest the marker step leaves, with the updated flag. |
| LineEditor.StripAtOther | src/inputModule.c:276-296 | A character that is not a marker is kept and does not touch the flag. |
| LineEditor.ScanMarkers | src/inputModule.c:276-296 | The in-place loop leaves exactly the text the reference scan keeps, and the flag it sets. |
| LineEditor.ParseBackgroundCharacters | src/inputModule.c:267-308 | In place, the line becomes `Background` of the old line, and a line without markers is left byte for byte. |
| LineEditor.FindFrom | src/inputModule.c:310-321 | The first occurrence of the pattern at or after a position, or None exactly when there is none from there on. |
| LineEditor.Find | src/inputModule.c:310-321 | `strstr`: the first occurrence of the pattern, or None exactly when it does not occur, in which case parse_history_commands returns at once. |
| LineEditor.FindAppend | src/inputModule.c:310-321 | Text after a found occurrence does not move it. |
| ShellDriver.PendingCountPrefix | src/shell.c:463-482 | The count of selectable jobs grows along the list, strictly across a selectable job. |
| ShellDriver.NthPendingUnique | src/shell.c:463-482 | A job number picks out at most one job. |
| ShellDriver.SearchProcessByNumber | src/shell.c:463-482 | The num-th job (from 1, in list order) among background jobs whose gpid is not -1, or NULL when there are fewer. |
| ShellDriver.CheckFgBgCommandLine | src/shell.c:484-503 | The number is atoi of the first argument, or 1 without one. The selected job is that job; an error is reported iff there is none, and it is the "no pending jobs" error iff the number was 1. |
| ShellDriver.CommandTable | include/shell.h:52-62 | The nine built-in names in table order, with the rr, timeout and children names at slots 5, 7 and 8. Each name defined in include/defs.h is nonempty and appears first at its own slot, so the lookup finds its handler. |
| ShellDriver.IndexOfInternalProcess | src/shell.c:353-367 | The smallest table index whose name equals `args[0]`, or -1 exactly when no name does. |
| ShellDriver.CRem | src/shell.c:111 | C's truncating `%`: Dafny's remainder for a non-negative dividend, always strictly between -total and total. |
| ShellDriver.Rotate | src/shell.c:110-112 | From a valid replica, the next one, wrapping to 0 after the last. |
| ShellDriver.TicksAdvance | src/shell.c:106-114 | Within one round, n ticks move the turn n replicas on, wrapping once. |
| ShellDriver.RotationPeriod | src/shell.c:106-114 | A tick keeps the index in range; after `total` ticks the same replica runs again, and not at any earlier tick. |
| ShellDriver.Shell.RoundRobin | src/shell.c:100-131 | Every round-robin job with more than one replica passes to the next replica. The alarm is re-armed iff some job rotated; sigalarm_on is cleared otherwise and unchanged when re-armed. |
| ShellDriver.Swept | src/shell.c:146-154 | The waitpid sweep keeps the number and pids of the processes. |
| ShellDriver.SweptEach | src/shell.c:146-154 | With distinct pids, the sweep gives each process the next state its own report names, and leaves a process without a report unchanged. |
| ShellDriver.UpdatedEach | src/shell.c:142-161 | After UpdateJob on a job with distinct pids, each process holds the next state of its own report, or is unchanged without one. |
| ShellDriver.NotifyRule | src/shell.c:160 | The notify rule in terms of processes: stopped-or-ended status in the background iff no process runs and either all ended or one is stopped. |
| ShellDriver.UpdateJob | src/shell.c:142-161 | One job of the sweep: each waitpid report marks its process. The status becomes the roll-up of the new processes. notify is set exactly by the notify rule. |
| ShellDriver.Shell.UpdateJobs | src/shell.c:137-165 | Every job of the list is updated as UpdateJob states. |
| ShellDriver.PutJobBackground | src/shell.c:275-284 | A stopped job becomes running in the background; a job in any other state is unchanged. |
| ShellDriver.Views | src/shell.c:551-576 | What the notification pass sees of each job, in list order. |
| ShellDriver.Kept | src/shell.c:551-576 | The jobs the pass keeps are jobs of the list, never more of them. |
| ShellDriver.KeptExactly | src/shell.c:551-576 | The pass keeps a job iff it is not a finished background job (the "only if" for a list without duplicates). |
| ShellDriver.KeptCleared | src/shell.c:564-567 | Once every kept job has lost its flag, no job in the list carries one. |
| ShellDriver.NoticeNumbers | src/shell.c:551-576 | When only background jobs are flagged, the printed job numbers increase strictly and lie between 1 and the number of background jobs. |
| ShellDriver.RemoveStep | src/shell.c:558-563 | remove_job by the gpid of a finished job removes exactly that job from the list built so far. |
| ShellDriver.Shell.Visit | src/shell.c:556-573 | One turn of the pass keeps its invariant: lines printed and jobs kept so far, the job number, and the flags of jobs looked at. |
| ShellDriver.Shell.NotifyAndCleanJobs | src/shell.c:551-576 | Every finished background job is reported and removed. Every other flagged job is reported and its flag cleared. The other jobs keep their order. The lines printed are exactly the notices, numbered by background position. |
| ShellDriver.CmdRrArguments | src/shell.c:393-413 | Fewer than three arguments, or a count below 1, is an error that changes nothing. Otherwise "rr" and the count are dropped: the other arguments and the NULL after them move down two places, in order, and argc drops by 2. Only `args[1]` must be a string, so a stage after a `\|` (argc one above its arguments) is covered. |
| ShellDriver.JobStateLabel | src/shell.c:29-51 | A label for every state but Ready, which gets none; each label fits the 15-column field. |

## Left out

- Operating-system calls: `fork`, `exec`, `setpgid`, `tcsetpgrp`, `kill`, `waitpid`, `sigprocmask`, `alarm` and the termios state. `waitpid` reports are parameters of `UpdateJobs`. `kill` and `alarm` are reduced to the returned re-arm flag. `launch_process`, `launch_forked_job`, `launch_job`, `put_job_foreground`, `report_job_foreground`, `init_shell`, `destroy_shell`, `block_sig`, `unblock_sig` and `control_signals` are not part of this model.
- Signal handlers: `roundRobin` and `updateJobs` are modelled as plain sequential sweeps. Their interleaving with the main loop is not modelled.
- Terminal I/O: `getch`, `printNSpaces`, `clearPrompt`, `printCommand`, the keystroke loop of `getCommand`, and its up/down arrow handlers, which combine history moves with printing.
- Printing: the `[n]\t` prefix and `%-15s` padding of `print_job_state`, colours, and the messages of `print_error`/`print_info`. Notices are returned as values.
- `parse_history_commands` after its `strstr` test: the substitution calls `getLine`, which is not part of this model.
- `cleanInnerJobs` (jobs with more than one replica in `updateJobs`), `dup_job_command` and `kill_job` are not part of this model, nor are the `rr` handler's replica duplication, forking and alarm after its argument handling. The job type, `active` and `total` fields are not declared in `include/jobs_control.h`; they are modelled as plain fields.
- ShellDriver.CmdRrArguments: does not model the job's `foreground = 0` and `type = RR_JOB` updates that follow the argument shift, nor its `search_job_by_process` call.
- ShellDriver.Shell.RoundRobin: the `kill(SIGCONT)` sent to a round-robin job with a single replica has no modelled effect.
- `cmd_cd_handler`, `cmd_exit_handler`, `cmd_fg_handler`, `cmd_bg_handler`, `cmd_jobs_handler`, `config_internal_commands`, `main`: the handlers are only glue between the modelled rules and OS calls. The names of the rr, timeout and children commands (`CMDRR`, `CMDTOUT`, `CMDCHILD`) are not defined in `include/defs.h`, so `CommandTable` takes them as parameters.
- Memory management: `malloc`/`free`, `allocateAndCopy`, `destroy_processes`, `destroy_list_jobs`, `destroyHist`. Jobs and processes are values or garbage-collected objects.
- CStrings.Atoi: does not model overflow; it works on unbounded integers.
- CommandHistory.Node.constructor: fills the new command buffer with NULs, where `createNode` leaves it uninitialised past the copied command or entirely without one. `getCommand` clears the appended line itself (src/inputModule.c:373-377).
- JobsControl.ProcsOf: gives each new process pid, info and job number 0, where `_new_process` leaves them unset (src/jobs_control.c:22-27).
- ShellDriver.CheckFgBgCommandLine: requires an argument at index 1 whenever argc is at least 2. After a `|`, argc counts one more than the arguments (src/jobs_control.c:48), so `ls | fg` reaches `atoi(args[1])` with a NULL `args[1]` (src/shell.c:488-491). That undefined call is not modelled.
- ShellDriver.IndexOfInternalProcess: requires an argument vector with at least one entry, since the C code passes `args[0]` to `strcmp` and an empty command has a NULL there.
- ShellDriver.Shell.NotifyAndCleanJobs: requires that a finished background job's gpid belongs to no other job, since `remove_job` removes by gpid. Launched jobs lead their own process groups, but the model does not derive this from launching.
- LineEditor.ParseBackgroundCharacters: requires a spare cell in the buffer for the flag and terminator of the longest result. The C code writes them unchecked.
- CommandHistory.History.CleanHistory: requires that no node is dirty without a backup, since `strcpy` from a NULL backup is undefined.
- JobsControl.Job.constructor: `job->info` points at a process's `info` field. The model stores the index of that process.
- The process status parameter of `next_proc_state` is the datatype `WaitStatus` (continued, stopped, exited, signaled) instead of the encoded `int` of the `W*` macros.

## Findings

| source | as written | input that shows it | evidently intended | confidence | as-written member | corrected member |
|---|---|---|---|---|---|---|
| src/jobs_control.c:79 | the closing NULL of an argument vector is written only for the last stage; `allocateAndCopy` terminates a stage only after an argument | `\| ls` or `a \|\| b`: the stage before the pipe has an unset `args[0]` | every stage's vector ends with a NULL | high; not executed | CommandParser.LeadingPipeUnterminated | CommandParser.ParseArgvTerminated |
| src/inputModule.c:149 | characterProcess accepts a character while the cursor is below MAX_LINE_COMMAND - 1, whatever the length | a line of 255 characters, cursor at 0, typing `a` | accept only while the length leaves room for the character and a terminator | high; not executed | LineEditor.FullLineLosesTerminator | LineEditor.SafeCharacterProcess |
| src/inputModule.c:154-156 | characterProcess lengthens the text without writing a terminator after it | a history line holding `ab` over a leftover `x` (a shorter backup restored by strcpy), typing `c` at its end gives `abcx` | the text becomes `abc` | medium; not executed | LineEditor.TypingJoinsLeftover | LineEditor.SafeCharacterProcess |
| src/inputModule.c:281-296 | after a marker is removed the cursor still moves on, so the character that slides into its place is never examined | `a &+` becomes `a + &` | `a +`: both markers leave and the flag is `+` | high; not executed | LineEditor.AdjacentMarkersAsWritten | LineEditor.AdjacentMarkers |
| src/inputModule.c:298 | the close reads `cmd[length - 1]` even when nothing but markers was on the line | the line `&` reads `cmd[-1]` | skip the space test on empty text | high; not executed | LineEditor.MarkerOnlyAsWritten | LineEditor.MarkerOnly |
