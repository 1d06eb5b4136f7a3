# ConcurBench batch runner, modelled in Dafny

ConcurBench runs a GoogleTest executable in parallel batches. It lists the tests
(`--gtest_list_tests`), hands batches of `Suite.Case` names to a thread pool, runs
each batch as a child process with `--gtest_filter=name1:name2:...`, and classifies
the names by reading the child's console output while it runs. A name ends up
completed (`Passed`/`Failed`), skipped, timed out, interrupted or still remaining.
The remaining names are resubmitted as a new batch. Every classified name is
written to a result file.

This project models the three sequential pieces of that program and proves
properties of them:

- **`text.dfy`, module `Text`.** The standard-library behaviour the code relies on:
  - `std::getline` over a string stream (`Lines`): split on `'\n'`, with no empty piece after a final `'\n'`;
  - `std::string::find` (`FindFrom`, `Contains`);
  - the trailing `'\r'` strip (`StripCR`).
- **`preprocess.dfy`, module `Preprocess`** (src/TestPreprocess.cpp):
  - `ParseTestOutput` turns a `--gtest_list_tests` listing into `Suite.Case` names.
  - The split-and-translate part of `GenerateFilters` turns a `:`-separated wildcard filter into anchored regular-expression strings.
- **`execution.dfy`, module `Execution`** (src/TestExecutor.cpp, `ExecuteTest`):
  - the poll loop's classification state machine, as functions over a `Snapshot` of the loop's local variables, with the lemmas about it.
  - The child process and its pipe are replaced by a finite trace of `Observation`s, one per pass of the `while(true)` loop. Each holds:
    - whether `GetExitCodeProcess` succeeded, and the code it gave (259, `STILL_ACTIVE`, means running);
    - the bytes drained from the pipe in that pass;
    - two `steady_clock` readings in nanoseconds: the one taken when a RUN line is parsed, and the one taken by the timeout check.
- **`executor.dfy`, module `Executor`** (src/TestExecutor.cpp), the imperative code proved against those functions:
  - `BuildCommand`;
  - the loop body as methods: `ParseOneLine`, `ParseOutput`, `Poll`;
  - `ExecuteTest` as a `while` loop over the trace;
  - `RunBatch`, the job `SubmitTestBatch` hands to the pool. It builds the command, runs the batch, adds the resolved count to `completed_`, writes the result and returns the names to resubmit.
- **`result_writer.dfy`, module `ResultWriter`** (src/ConcurrentResultWriter.cpp):
  - the class `ResultWriter`, whose output file is the field `lines: seq<string>` and whose `completed_` counter is the field `completed`;
  - both `AddResult` overloads, as methods that append to `lines`;
  - what the groups of raw output hold, for output shaped as GoogleTest prints it: lines before the first RUN line, one block per test, then optionally the tear-down line and more lines.
- **`corrected_poll.dfy`, module `CorrectedPoll`**: the poll loop of `ExecuteTest` with the defects listed under Findings corrected, next to the model of the code as written. A corrected pass:
  - drains the pipe first;
  - parses only the lines that this pass completes with a '\n', keeping an unterminated last line until its '\n' arrives;
  - then looks at the exit code, then at the clock;
  - records a crash or a timeout only for a name that is still remaining.

  The rest of the model (`Executor`, `ResultWriter`) follows the code as written.

Each pass of the poll loop does four things in the source's order:

1. the exit check;
2. the drain;
3. a re-parse of the **whole** output read so far, starting from the variables the previous pass left;
4. the timeout check.

`Execution.Pass` is that pass, and `Execution.Run` is the loop up to the first pass that breaks. Several lemmas describe what this design implies for the code as written:

- The timeout can never fire when, in every pass, the timeout check reads the clock less than one second after the parse does, and the limit is at least one second. Every pass re-reads the RUN line of the test in flight and restarts its clock (`Execution.TimeoutNeverFires`).
- A crash is blamed on the test in flight at the end of the *previous* pass, because the exit check comes before the drain (`Execution.ExitBlamesPreviousTest`).
- A crash seen at the first poll marks nothing as interrupted, so the crashing test is handed back for another batch (`Execution.FirstPollCrashRecordsNothing`).
- A crash while the name in flight is not a remaining name records one name more than the batch had (`Execution.ExitOfAbsentNameOvercounts`).
- Parsing output a second time gives the same variables as parsing it once with the later clock reading, when the batch names are distinct and no end or skip marker precedes the first RUN line (`Execution.ReparseIdempotent`).
- A RUN line cut short by the pipe is read as the name of another test. With batch `[S.A, S.AB]`, a pass that drains `[ RUN      ] S.A` and a crash in the pass that drains `B\n` give `interrupted == [S.A]` and `remaining == [S.AB]` (`Execution.PartialRunLineBlamesWrongTest`).
- A test whose RUN line is never read stays remaining and lands in no bucket, so it is handed back for another batch (`Execution.NeverStartedStaysRemaining`).

## Model

| member | source | states |
|---|---|---|
| Text.FindFrom | src/TestPreprocess.cpp:98-99 | the index returned lies between the start and the end, and holds the character when it is not the end (npos written as the length) |
| Text.FindFromFirst | src/TestPreprocess.cpp:98 | no earlier position from the start holds the character, so the index is the first occurrence |
| Text.LinesUnlines | src/TestPreprocess.cpp:65 | splitting lines joined with '\n' gives the lines back when none holds a '\n' |
| Text.LinesSingle | src/TestExecutor.cpp:130-132 | a non-empty text without '\n' is read as exactly one line |
| Text.UnlinesLines | src/TestPreprocess.cpp:65 | joining the pieces getline yields restores the text, up to a '\n' added after an unterminated last line |
| Text.LinesOfExtension | src/TestExecutor.cpp:126-132 | once more output is appended, each line read earlier is a prefix of the line at the same position: a partial last line grows but is not lost |
| Text.StripCR | src/TestExecutor.cpp:133 | the result is the line or the line less its last character, and equals the line exactly when it does not end in '\r' |
| Text.ContainsPrefix | src/TestExecutor.cpp:134 | a marker found in a line is still found once the line grows |
| Preprocess.FirstNonSpace | src/TestPreprocess.cpp:76 | the index is the first non-space character from the start, or the end when there is none |
| Preprocess.ListStep | src/TestPreprocess.cpp:65-81 | one pass of the getline loop adds at most one name and keeps the names so far; a suite line, or any line while no suite is open, adds none; an empty line closes the suite; a pass that adds a name keeps the suite |
| Preprocess.ListStepCases | src/TestPreprocess.cpp:65-81 | a suite line adds no name; any other line keeps the suite and adds `suite.rest` exactly when a suite is open and the line has a non-space character, where `rest` is the line from that character on |
| Preprocess.ParseTestOutput | src/TestPreprocess.cpp:59-84 | the getline loop returns the names of ParseTests, the fold of one step per line |
| Preprocess.ParseTestsCount | src/TestPreprocess.cpp:65-81 | at most one name per line of the listing |
| Preprocess.SuiteHasNoDot | src/TestPreprocess.cpp:72-73 | the suite a suite line opens is the line without its final '.', and holds no '.' |
| Preprocess.ParsedNamesSplit | src/TestPreprocess.cpp:72-78 | every name produced splits at its first '.' into a non-empty suite and a case that does not start with a space; and it is the line `k` without its '.', a '.', and line `j` from its first non-space character on, for some suite line `k` before the case line `j` with no suite line between them |
| Preprocess.ListStepOrigin | src/TestPreprocess.cpp:65-81 | reading one more line keeps the open suite taken from the last suite line read so far, and every name traced to a suite line and a later case line |
| Preprocess.ListPrefixOrigin | src/TestPreprocess.cpp:65-81 | after any prefix of the listing, the open suite is the last suite line read without its '.', and every name comes from a suite line and a later case line with no suite line between them |
| Preprocess.EmptyLineDropsCases | src/TestPreprocess.cpp:72-74 | an empty line passes the suite test and resets the suite to empty, so the case lines after it add nothing until the next suite line |
| Preprocess.ClosedSuiteDropsCases | src/TestPreprocess.cpp:74-80 | while no suite is open, lines that are not suite lines add nothing |
| Preprocess.CaseLinesParse | src/TestPreprocess.cpp:74-79 | the indented case lines under an open suite add `suite.case` for each case, in order |
| Preprocess.HeaderStep | src/TestPreprocess.cpp:72-73 | a `Suite.` line opens that suite and adds nothing |
| Preprocess.ListingParse | src/TestPreprocess.cpp:59-84 | parsing the lines of a listing of suites and cases adds every qualified name, in listing order |
| Preprocess.ListingRoundTrip | src/TestPreprocess.cpp:59-84 | parsing the listing text that GoogleTest prints for a catalog returns exactly that catalog's `Suite.Case` names |
| Preprocess.TranslateSegment | src/TestPreprocess.cpp:104-122 | the character loop and the anchoring give `^` + translation + `$` |
| Preprocess.Translate | src/TestPreprocess.cpp:105-119 | the translation is one character longer than the segment for each '*' and each '.' |
| Preprocess.SegmentsNoColon | src/TestPreprocess.cpp:96-101 | no segment the loop cuts holds a ':', since each ends at the first ':' from its start |
| Preprocess.GenerateFilters | src/TestPreprocess.cpp:92-137 | the while loop returns one pattern per segment of the filter, in order |
| Preprocess.FiltersStep | src/TestPreprocess.cpp:97-134 | one pass adds the current segment's pattern, and the segments left start after the separator, or at the end when there is none |
| Preprocess.SegmentsFromShift | src/TestPreprocess.cpp:97-134 | the segments cut from a suffix of a filter do not depend on what precedes it |
| Preprocess.SegmentCount | src/TestPreprocess.cpp:96-134 | the number of patterns is the number of ':' plus one, minus one when the filter is empty or ends in ':' |
| Preprocess.SegmentsOfCons | src/TestPreprocess.cpp:96-133 | a field without ':' followed by ':' is cut off as the first segment, and the loop goes on after the ':' |
| Preprocess.EmptySegmentPattern | src/TestPreprocess.cpp:96-133 | an empty field, at the start of the filter or between two ':', is kept as its own segment and its pattern is `^$`, the expression that matches only the empty name |
| Preprocess.TranslateAppend | src/TestPreprocess.cpp:105-119 | the translation works character by character: translating a concatenation concatenates the translations |
| Preprocess.TranslateRoundTrip | src/TestPreprocess.cpp:105-119 | for a wildcard without a backslash, the translation can be undone, so distinct wildcards give distinct expressions |
| Execution.Classify | src/TestExecutor.cpp:134-146 | RUN wins over the other markers; OK or FAILED wins over SKIPPED; each kind is stated as an if-and-only-if on the markers the line contains |
| Execution.ParseLine | src/TestExecutor.cpp:133-155 | one line never touches the timed-out and interrupted names, only extends completed and skipped, by at most one name in all, and leaves a test in flight only as it was or as set by a RUN line (the full effect is ParseLineEffect) |
| Execution.RemoveFirst | src/TestExecutor.cpp:139-143 | std::find followed by erase: when the name is present, the result is the list without the element at the index of its first occurrence, the names before and after it kept in order; when it is absent, the list is unchanged |
| Execution.RemoveFirstNoDup | src/TestExecutor.cpp:139-143 | erasing from a list of distinct names leaves distinct names, without the erased one |
| Execution.ParseLineEffect | src/TestExecutor.cpp:133-155 | a RUN line sets current_test to `line.substr(13)` and restarts the clock; OK records `Passed` and FAILED records `Failed` for current_test, and erase it from remaining, only when current_test is still remaining; SKIPPED does the same into skipped; every end or skip line clears current_test; other lines change nothing |
| Execution.RemovedNameAddsNothing | src/TestExecutor.cpp:137-155 | a marker for a name that is no longer remaining only clears current_test |
| Execution.ParseLineConserves | src/TestExecutor.cpp:137-155 | a line only moves a name from remaining into completed or skipped: the multiset of the three is unchanged, completed and skipped only grow, and the other buckets are untouched |
| Execution.ParseAllConserves | src/TestExecutor.cpp:130-156 | the same for a whole parse of the output |
| Execution.NeverCompletesAbsent | src/TestExecutor.cpp:137-153 | a name that is not remaining never comes back and is never recorded as completed |
| Execution.ClockIrrelevant | src/TestExecutor.cpp:136 | the clock reading of a parse reaches start_time and nothing else |
| Execution.ReparseIdempotent | src/TestExecutor.cpp:130-156 | parsing output already parsed again gives the variables that one parse with the later clock reading gives, provided the batch names are distinct and no end or skip marker precedes the first RUN line |
| Execution.ExitCheckEffect | src/TestExecutor.cpp:108-120 | the exit check changes anything exactly when the exit code is non-zero, nothing has timed out and a test is in flight; it then appends that test to interrupted and erases one occurrence from remaining |
| Execution.ExitCheck | src/TestExecutor.cpp:108-120 | the exit check leaves completed, skipped, timed out, current_test and start_time alone, and appends at most one interrupted name (the full effect is ExitCheckEffect) |
| Execution.TimeoutCheck | src/TestExecutor.cpp:158-172 | the timeout check leaves completed, skipped and interrupted alone, and appends at most one timed-out name (the full effect is TimeoutCheckEffect) |
| Execution.TimeoutCheckEffect | src/TestExecutor.cpp:158-172 | the timeout check changes anything exactly when a test is in flight and the elapsed whole seconds reach the limit; it then appends that test to timed out, erases one occurrence from remaining and clears current_test, leaving completed, skipped and interrupted alone |
| Execution.Pass | src/TestExecutor.cpp:105-176 | a pass appends the drained bytes to the output, and the loop breaks in any pass that observes the exit |
| Execution.Run | src/TestExecutor.cpp:105-176 | the loop only appends to the output, and breaks once any observation shows the exit |
| Execution.ExecuteSpec | src/TestExecutor.cpp:91-187 | the status is 0 and the output ends with the bytes read after the loop |
| Execution.ExitCheckPartitioned | src/TestExecutor.cpp:108-120 | the exit check keeps the batch partitioned |
| Execution.TimeoutCheckPartitioned | src/TestExecutor.cpp:158-172 | the timeout check keeps the batch partitioned |
| Execution.PassPartitioned | src/TestExecutor.cpp:105-176 | one pass keeps the batch partitioned |
| Execution.RunPartitioned | src/TestExecutor.cpp:105-176 | the whole loop keeps the batch partitioned |
| Execution.ExecutePartition | src/TestExecutor.cpp:91-187 | the remaining, completed and skipped names of a result are drawn from the batch, so they are pairwise disjoint for distinct names; with the interrupted and timed-out names added they cover the batch |
| Execution.ContinuingPassRecordsNothing | src/TestExecutor.cpp:105-176 | a pass that does not break records no interrupted or timed-out test |
| Execution.StoppingPassRecordsAtMostOne | src/TestExecutor.cpp:108-172 | a pass appends at most one name to interrupted and at most one to timed out |
| Execution.RunRecordsAtMostOne | src/TestExecutor.cpp:105-176 | the loop appends at most one name to each of those buckets |
| Execution.AtMostOneInterruptedOrTimedOut | src/TestExecutor.cpp:91-187 | a batch run interrupts at most one test and times out at most one test |
| Execution.RunIgnoresLaterObservations | src/TestExecutor.cpp:170-176 | the loop breaks by the first pass that observes the exit, and observations after it are never looked at |
| Execution.TailNotParsed | src/TestExecutor.cpp:178-181 | the bytes read after the loop lengthen the output but change no bucket |
| Execution.HasRunExtends | src/TestExecutor.cpp:126-134 | a RUN line in the output stays a RUN line when more output arrives |
| Execution.ParseAllClock | src/TestExecutor.cpp:134-136 | a parse over output with a RUN line leaves start_time at that parse's clock reading; current_test is only set by a RUN line |
| Execution.PassTimeout | src/TestExecutor.cpp:130-172 | the timeout of a pass fires only when that pass's own parse and check are at least the limit apart |
| Execution.RunTimeout | src/TestExecutor.cpp:105-176 | a test is timed out only when one pass's parse and check readings are at least the limit apart |
| Execution.TimeoutNeverFires | src/TestExecutor.cpp:158-171 | when in every pass the check's clock reading is less than one second after the parse's, and the limit is at least one second, no test is ever timed out |
| Execution.ExitBlamesPreviousTest | src/TestExecutor.cpp:108-156 | a non-zero exit with a test in flight breaks the loop and marks the test in flight from the previous pass as interrupted, even when this pass's output shows it finished; the pass never records it as completed |
| Execution.FirstPollCrashRecordsNothing | src/TestExecutor.cpp:108-119 | a crash observed at the first poll records no interrupted test; unless a test also times out, every batch name is remaining, completed or skipped |
| Execution.ParseAllKeepsTotal | src/TestExecutor.cpp:130-156 | a parse keeps the number of names held over the five lists |
| Execution.ExitOfAbsentNameOvercounts | src/TestExecutor.cpp:111-118 | when the name in flight is not remaining, a crash still records it, and the names held grow by one |
| Execution.ParseAllUntouched | src/TestExecutor.cpp:130-156 | a parse over lines with no RUN line for a name never puts that name in flight or in a bucket, and keeps its count in remaining |
| Execution.PassUntouched | src/TestExecutor.cpp:105-176 | the same for a whole pass, when the output it parses holds no RUN line for the name |
| Execution.RunUntouched | src/TestExecutor.cpp:105-176 | the same for the loop |
| Execution.NeverStartedStaysRemaining | src/TestExecutor.cpp:91-187 | a test whose RUN line no pass reads keeps its count in remaining and lands in no bucket |
| Execution.ReadRunLine | src/TestExecutor.cpp:130-136 | a RUN line for a name, alone or ended by '\n', is one line, and the parse sets current_test to the name and restarts the clock |
| Execution.PassWithoutTimeout | src/TestExecutor.cpp:105-176 | a pass whose parse leaves no test overdue keeps the parsed variables and breaks exactly when it observes the exit |
| Execution.PartialFirstPass | src/TestExecutor.cpp:122-156 | a pass that drains a RUN line cut after `a` sets current_test to `a` |
| Execution.PartialSecondPass | src/TestExecutor.cpp:108-156 | the next pass sees the crash before reading the rest of the line, marks `a` interrupted, and only then reads the RUN line of `a + c` |
| Execution.PartialRunLineBlamesWrongTest | src/TestExecutor.cpp:108-156 | for batch `[a, a + c]`, a RUN line for `a + c` drained in two pieces cut after `a`, then a crash, gives interrupted `[a]`, remaining `[a + c]` and nothing completed |
| Executor.BuildCommand | src/TestExecutor.cpp:43-47 | the loop returns the path, ` --gtest_filter=`, then every name followed by ':' |
| Executor.Filter | src/TestExecutor.cpp:45 | the filter is empty exactly for an empty batch, otherwise ends with ':', and is no shorter than the number of names |
| Executor.FilterSegments | src/TestExecutor.cpp:45 | cutting the filter at ':' as GenerateFilters does gives back the batch, and so one pattern per name, for names without ':' |
| Executor.ParseOneLine | src/TestExecutor.cpp:133-155 | the body of the getline loop computes ParseLine |
| Executor.ParseOutput | src/TestExecutor.cpp:130-156 | the getline loop computes ParseAll over the lines of the output |
| Executor.Poll | src/TestExecutor.cpp:106-174 | one pass of the loop computes Pass: the new variables, the output and whether the loop breaks |
| Executor.ExecuteTest | src/TestExecutor.cpp:55-187 | a failed spawn gives no result; otherwise the loop runs to the pass that breaks, which the trace must contain, and returns ExecuteSpec: status 0, the output with the tail appended, and the buckets and remaining names the loop left |
| Executor.RunBatch | src/TestExecutor.cpp:25-40 | after a failed spawn nothing is counted, written or resubmitted; otherwise `completed_` grows by the number of resolved names, the result's lines are appended, and the names to resubmit are the remaining ones exactly when there are some; the counter grows by the number of lines written |
| ResultWriter.RecordRoundTrip | src/ConcurrentResultWriter.cpp:15 | a `name : status` line reads back as that name and status, for a name without ':' |
| ResultWriter.FormatResult | src/ConcurrentResultWriter.cpp:15-18 | one line per completed, skipped, timed-out and interrupted name, none for the remaining names: exactly the `completed_` increment |
| ResultWriter.FormatResultRoundTrip | src/ConcurrentResultWriter.cpp:15-18 | the lines read back as the completed pairs, then the skipped, timed-out and interrupted names with their words, in bucket order |
| ResultWriter.GroupStep | src/ConcurrentResultWriter.cpp:31-42 | after a line, collection is on only when there is a group to collect into |
| ResultWriter.GroupStepShape | src/ConcurrentResultWriter.cpp:31-42 | a RUN line opens one group and no other line does; a group starts with its RUN line; no group holds a tear-down line |
| ResultWriter.GroupsShape | src/ConcurrentResultWriter.cpp:24-43 | one group per RUN line; every non-empty group opens with its RUN line; no group holds a tear-down line |
| ResultWriter.GroupStepEffect | src/ConcurrentResultWriter.cpp:31-42 | a RUN line opens a group holding just that line, or an empty group with collection off when it also holds the tear-down marker; a tear-down line stops collection; any other line joins the last group while collecting and is dropped otherwise; the line kept has its '\r' stripped |
| ResultWriter.StripAll | src/ConcurrentResultWriter.cpp:31 | each line kept is the raw line or the raw line less its last character |
| ResultWriter.BlockGroup | src/ConcurrentResultWriter.cpp:31-42 | a block's group starts with its stripped RUN line and goes on with its stripped body |
| ResultWriter.GroupFoldConcat | src/ConcurrentResultWriter.cpp:30-43 | the getline loop over two runs of lines is the loop over the second from where the first left off |
| ResultWriter.QuietFold | src/ConcurrentResultWriter.cpp:30-43 | while collection is off, lines with no RUN marker change nothing |
| ResultWriter.BodyFold | src/ConcurrentResultWriter.cpp:30-43 | while collecting, lines with neither marker join the last group in order |
| ResultWriter.BlockFold | src/ConcurrentResultWriter.cpp:30-43 | a block adds exactly its group and leaves collection on |
| ResultWriter.BlocksFold | src/ConcurrentResultWriter.cpp:30-43 | a run of blocks adds their groups in order |
| ResultWriter.TailFold | src/ConcurrentResultWriter.cpp:30-43 | a tear-down line and the lines with no RUN marker after it add and change no group |
| ResultWriter.GroupsOfOutput | src/ConcurrentResultWriter.cpp:24-43 | for lines before the first RUN line, then test blocks, then optionally the tear-down line and lines with no RUN marker, the groups are exactly one per block: its RUN line and body, '\r' stripped; the lines before the first RUN line and from the tear-down line on belong to no group |
| ResultWriter.RawReportOfOutput | src/ConcurrentResultWriter.cpp:24-68 | end to end, the corrected record of each block names the test after its RUN line and reports `Passed` when a body line holds OK, `Failed` when none does and one holds FAILED, and `中断` otherwise |
| ResultWriter.RawReportAsWritten | src/ConcurrentResultWriter.cpp:45-67 | one record per group, each group read only up to the first group's length |
| ResultWriter.RawReport | src/ConcurrentResultWriter.cpp:47-67 | one record per group, each group read to its own end |
| ResultWriter.StatusOf | src/ConcurrentResultWriter.cpp:51-65 | `Passed` exactly when a line at index 1 to n-1 holds OK; `Failed` exactly when none does and one holds FAILED; `中断` otherwise |
| ResultWriter.NameOf | src/ConcurrentResultWriter.cpp:53-54 | the name is the first line after its first 13 characters, and empty when no line is read |
| ResultWriter.AnyHoldsAt | src/ConcurrentResultWriter.cpp:51-58 | some line of the group slice holds a marker exactly when some index 1 to n-1 of the group does |
| ResultWriter.RawReportStatus | src/ConcurrentResultWriter.cpp:53-65 | a corrected record is the name after the RUN marker and a status that is `Passed` exactly when a later line holds OK, and `Failed` exactly when none does and one holds FAILED |
| ResultWriter.EqualGroupsAgree | src/ConcurrentResultWriter.cpp:51 | when all groups have the first group's length, the code as written gives the corrected records |
| ResultWriter.LongerGroupLosesItsStatus | src/ConcurrentResultWriter.cpp:51 | when the second group is longer than the first and its OK line lies past the first group's length, with no marker before it, the code as written reports that test as `中断` and the corrected reading as `Passed` |
| ResultWriter.ResultWriter.constructor | src/ConcurrentResultWriter.cpp:10 | the file is opened in append mode, so its lines are kept; the counter starts at 0 |
| ResultWriter.ResultWriter.AddResult | src/ConcurrentResultWriter.cpp:13-19 | appends exactly the formatted lines of the result and leaves the counter alone |
| ResultWriter.ResultWriter.WriteCompleted | src/ConcurrentResultWriter.cpp:15 | the loop over the completed pairs appends their lines |
| ResultWriter.ResultWriter.WriteTagged | src/ConcurrentResultWriter.cpp:16-18 | the loop over one bucket appends its lines after those already written |
| ResultWriter.ResultWriter.AddRawResult | src/ConcurrentResultWriter.cpp:21-69 | appends the records of the groups of the raw output, as the code computes them |
| ResultWriter.ResultWriter.WriteLines | src/ConcurrentResultWriter.cpp:68 | appends the records in order |
| ResultWriter.GroupLines | src/ConcurrentResultWriter.cpp:24-43 | the getline loop builds the groups that Groups defines |
| ResultWriter.GroupLine | src/ConcurrentResultWriter.cpp:31-42 | one pass of that loop computes GroupStep, and `test_idx` stays the index of the last group |
| ResultWriter.GroupRecords | src/ConcurrentResultWriter.cpp:45-67 | the loop over the groups builds the as-written records |
| ResultWriter.ScanGroup | src/ConcurrentResultWriter.cpp:48-65 | the inner loop over the first `n` lines of a group yields NameOf and StatusOf |
| ResultWriter.StatusByIndex | src/ConcurrentResultWriter.cpp:51-59 | StatusOf depends on whether some line at index 1 to n-1 holds OK or FAILED |
| CorrectedPoll.SplitComplete | src/TestExecutor.cpp:126-132 | the text is the complete lines, each followed by '\n', then the unterminated rest; no line and not the rest holds a '\n' |
| CorrectedPoll.SplitIncomplete | src/TestExecutor.cpp:126-132 | text without a '\n' completes no line and is kept whole for the next pass |
| CorrectedPoll.SplitOneLine | src/TestExecutor.cpp:126-132 | a line ended by '\n' completes exactly that line and leaves nothing pending |
| CorrectedPoll.SettleExit | src/TestExecutor.cpp:108-120 | a non-zero exit clears the test in flight; interrupted grows by exactly that test when it is still remaining and by nothing otherwise; completed, skipped and timed out are left alone, and the names held by remaining, completed, skipped and interrupted are conserved; without a non-zero exit nothing changes |
| CorrectedPoll.SettleTimeout | src/TestExecutor.cpp:158-172 | an overdue test in flight is cleared; timed out grows by exactly that test when it is still remaining and by nothing otherwise; completed, skipped and interrupted are left alone, and the names held are conserved; when no test is overdue nothing changes |
| CorrectedPoll.FixedPass | src/TestExecutor.cpp:105-176 | drain, parse of the newly completed lines, exit check, timeout check: every batch name stays held exactly once, the output grows by the drained bytes, and the loop breaks in any pass that observes the exit |
| CorrectedPoll.FixedRun | src/TestExecutor.cpp:105-176 | the corrected loop conserves the names held |
| CorrectedPoll.FixedExecute | src/TestExecutor.cpp:91-187 | the batch is exactly the multiset union of the remaining, completed, skipped, interrupted and timed-out names, so the resolved count plus the remaining count is the batch size |
| CorrectedPoll.ParseAllConcat | src/TestExecutor.cpp:130-156 | parsing two runs of lines is parsing the second from where the first left off |
| CorrectedPoll.ParseAllQuiet | src/TestExecutor.cpp:130-156 | lines with no marker change nothing |
| CorrectedPoll.CrashBlamesLastStarted | src/TestExecutor.cpp:108-156 | when a pass drains the RUN line of a remaining test `x`, then only unmarked lines, then sees a crash, the loop breaks and `x` is the one name appended to interrupted and erased from remaining |
| CorrectedPoll.FirstPollCrashBlamed | src/TestExecutor.cpp:108-119 | a crash at the first poll, after output holding the RUN line of batch name `x` and no later marker, marks exactly `x` interrupted |
| CorrectedPoll.SilentPass | src/TestExecutor.cpp:105-176 | a pass that drains no '\n' and sees no exit parses nothing and only applies the timeout check |
| CorrectedPoll.SilentTestTimesOut | src/TestExecutor.cpp:158-171 | a remaining test in flight whose output stays silent until a pass finds it overdue is timed out: the loop breaks, `x` is the one name appended to timed out, and nothing is interrupted |
| CorrectedPoll.FixedPartialFirstPass | src/TestExecutor.cpp:122-136 | a RUN line cut short by the pipe is kept pending, and nothing is parsed |
| CorrectedPoll.FixedPartialSecondPass | src/TestExecutor.cpp:108-136 | once its '\n' arrives the whole RUN line is parsed before the exit check, so the crash is blamed on the test it names |
| CorrectedPoll.FixedPartialRunLine | src/TestExecutor.cpp:108-136 | for the trace of PartialRunLineBlamesWrongTest the corrected loop gives interrupted `[a + c]`, remaining `[a]`, nothing completed and nothing timed out |

A *partitioned* snapshot (`Execution.Partitioned`) is one where:

- the remaining, completed and skipped names together are a sub-multiset of the batch;
- the batch is a sub-multiset of those names plus the interrupted and timed-out ones.

## Left out

- The thread pool (include/ThreadPool.h, src/ThreadPool.cpp) and the `enqueue` in `SubmitTestBatch` are not modelled: they are thread coordination. `RunBatch` returns the next batch instead of enqueueing it. There is no retry cap, and none is invented.
- The Win32 calls (`CreatePipe`, `CreateProcessA`, `GetExitCodeProcess`, `PeekNamedPipe`, `ReadFile`, `TerminateProcess`, `CloseHandle`) are left out. The observation trace and the tail string stand for them, and a failed `CreateProcessA` is the `spawned == false` input.
- `std::chrono` and `sleep_for`: the clock readings are inputs in the observation, and the 100 ms sleep is not modelled.
- `Executor.ExecuteTest` requires an exit observation in the trace. A run that never exits and never times out loops forever in the source.
- `Executor.ExecuteTest` requires, for every pass, that each line parsed is non-empty and that each RUN line has at least 13 characters. The source is undefined on the first (`line[line.size() - 1]`) and throws on the second (`substr(13)`). The requirement covers every prefix of the trace, even passes after the loop has ended.
- `ResultWriter.ResultWriter.AddRawResult` requires the same of the raw output. It also requires groups no shorter than the first, since a shorter group is read out of bounds.
- `Text.StripCR` leaves an empty line unchanged, and `Execution.RunName` gives the empty name for a line shorter than 13 characters. These only matter on the inputs excluded above.
- The '\n' removal in `ParseTestOutput` (src/TestPreprocess.cpp:67-69) is not modelled separately. `std::getline` never leaves a '\n' in a line, so it never applies.
- `std::regex` compilation with `icase` is not modelled. Neither is the `regex_error` path of `GenerateFilters`. The model produces the pattern strings only.
- `GetOriginRes` (popen) and `FilterAndWriteResults` (file I/O and `std::regex_match`) in src/TestPreprocess.cpp are not part of this model.
- The mutex and the atomic counters of `ConcurrentResultWriter` are not modelled, and neither is `PrintProgress` (console output) or `total_`. `completed_` is a plain integer field.
- `ofstream` is modelled as the sequence of lines written. A name holding a '\n' would split a line, and that is not modelled.
- main.cpp and the headers are not part of this model. The headers declare functions that differ from the .cpp files, and the model follows the .cpp files.
- `ExecuteResult` is not defined in a source file of the model. Its field order follows src/TestExecutor.cpp:187 and its field names follow src/ConcurrentResultWriter.cpp:15-18.
- `Executor` and `ResultWriter` model the code as written, defects included. The corrected poll loop of `CorrectedPoll` stands beside them and is not what `RunBatch` calls.
- `CorrectedPoll.FixedPass` omits the 13-character guard on RUN lines that the corrected loop would need for `substr(13)`; `RunName` gives the empty name there, as in `Execution`.
- The loop's local variables are a `Snapshot` value threaded through `Executor.Poll`, not an object. The source keeps them as locals of `ExecuteTest`.

## Findings

| source | as written | input that shows it | evidently intended | confidence | as-written member | corrected member |
|---|---|---|---|---|---|---|
| src/ConcurrentResultWriter.cpp:51 | the inner loop over group `i` runs to `tests_result[0].size()` | groups `[RUN S.A, OK S.A]` and `[RUN S.B, log, OK S.B]`: S.B is written as `S.B 中断` (interrupted) although it passed; a group shorter than the first is read out of bounds | run to `tests_result[i].size()`, so each group is read to its own end | high (not executed) | ResultWriter.LongerGroupLosesItsStatus | ResultWriter.RawReportStatus |
| src/TestExecutor.cpp:108-156 | the exit check runs before the drain and the parse | a pass drains `[ RUN      ] S.B` and sees exit code 1 while current_test is still `S.A`: `S.A` is marked interrupted and S.B is never recorded | drain and parse first, then blame the test in flight | high (not executed) | Execution.ExitBlamesPreviousTest | CorrectedPoll.CrashBlamesLastStarted |
| src/TestExecutor.cpp:108-119 | the exit check at the first poll reads current_test before any output has been parsed | the first pass drains `[ RUN      ] S.A` and sees exit code 1: nothing is marked interrupted and S.A is resubmitted | blame the test whose RUN line the crash follows | high (not executed) | Execution.FirstPollCrashRecordsNothing | CorrectedPoll.FirstPollCrashBlamed |
| src/TestExecutor.cpp:130-171 | every pass re-parses the whole output and re-reads the RUN line of the test in flight, restarting start_time | a test that prints its RUN line and then hangs: each pass resets its clock, so after any number of passes whose parse and check readings are less than a second apart it is never timed out | start the clock once per RUN line | high (not executed) | Execution.TimeoutNeverFires | CorrectedPoll.SilentTestTimesOut |
| src/TestExecutor.cpp:111-118 | the crashed name is appended to interrupted whether or not it is still remaining | batch `[S.Foo]`; one pass drains `[ RUN      ] S.Fo`, so current_test is `S.Fo`, a name not in the batch; the next pass sees exit code 1 before draining `o\n`: `S.Fo` is appended to interrupted and, after the parse, `S.Foo` stays remaining, so two names are held for a batch of one | record only a name still remaining | medium (not executed) | Execution.ExitOfAbsentNameOvercounts | CorrectedPoll.FixedExecute |
| src/TestExecutor.cpp:126-136 | a line is parsed as soon as it is drained, even when its '\n' has not arrived | batch `[S.A, S.AB]`; one pass drains `[ RUN      ] S.A`, the next drains `B\n` and sees exit code 1: `S.A` is marked interrupted and `S.AB` is resubmitted | parse only complete lines | medium (not executed) | Execution.PartialRunLineBlamesWrongTest | CorrectedPoll.FixedPartialRunLine |
