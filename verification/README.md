# Verified models of the Android tools

Dafny models of the algorithms behind the Android trace analysis scripts (`py_modules/`), the desktop power tool
(`powertool/`) and its launcher (`qt.py`), with proofs of what they promise. Code that updates state is modelled by
methods with loops or by classes; each is proved against a specification function or predicate, and the laws are
lemmas about that specification. What an operation does is moreover said in the fields, characters and constants of
its input, without the functions it is built from: in its own contract, or by laws in modules such as `ThreadReport`,
`LatexReading`, `NotificationEvents` and `ToastForms`.

`dafny verify dfyconfig.toml` checks the project.

| part | modules |
|---|---|
| frame sweep over a trace | `FrameStreams`, `FrameSweep`, `FrameProperties`, `FrameCompletions` |
| clicks and input events, CPU time per segment | `ClickMatching`, `CpuTime` |
| thread states, worker pool | `ThreadStates`, `ThreadReport`, `WorkerPool` |
| block I/O | `IoPatterns`, `IoStrips` |
| LaTeX reflow | `LatexScanners`, `LatexReflow`, `LatexReading`, `LatexContent`, `LatexFormat`, `LatexComments`, `LatexStops`, `LatexIdempotence` |
| LaTeX reflow, a second pass | `LatexStable`, `LatexLines`, `LatexMachines`, `LatexMarkup`, `LatexReread`, `LatexSecondPass`, `LatexOrigins`, `LatexPrinted`, `LatexWords`, `LatexProtected`, `LatexJoins`, `LatexFixedPoint`, `LatexEnglish`, `LatexUnstable` |
| C++ comment removal | `CppComments` |
| notification stream | `SeenIds`, `SessionLabels`, `StoredChips`, `NotificationState`, `NotificationPage`, `NotificationRuns`, `NotificationEvents`, `NotificationStart`, `NotificationDedup`, `NotificationRestart` |
| toast launch link | `Utf8`, `ToastLink`, `ToastForms` |
| shared | `Options`, `Intervals`, `MapSums`, `StableSort`, `PyText`, `Escapes` |

Times are integer nanoseconds. Query results are given sequences. Character classes (`isspace`, `isalpha`,
`isalnum`, `lower`, the line boundaries) are fields of the parameter `CharClasses`; the proofs use only what its
`Valid` says, and `UnicodeClassesAreValid` shows that the real white space and line boundaries satisfy it. The id
derived from a notification is an arbitrary function of its fields with a non-empty value. Capacities (5000 seen ids,
200 recent ids, 500 stored messages, segment length, sector threshold) are parameters. Futures of the worker pool
complete in an order chosen freely, and which attempts raise is an arbitrary function.

What the theorems about a second pass of the reflow ask of the word lists is `Orderly` and `Named`: letters are
neither white space nor marks and keep their case classes, a protected word has letters, full stops and single spaces
between letters, no two words match in one place, and no word can begin inside another. `LatexEnglish.EnglishIsOrderly`
proves it of the program's lists with ASCII letters and the Unicode white space.

What the code does differently from what one would expect, each stated as a lemma:

- The reflow is not idempotent. For texts without markup the exact condition is `Settled`
  (`LatexFixedPoint.MarkupFreeIsStableIff`): on the second pass no word is joined, or the first one that is takes in
  the rest of the text as it stands. A word is joined in two ways. Single characters spell it once a line ends after
  its full stop: a word character followed it, as in `Fig.3`, or white space stood before a full stop of it, as in
  `cf . 3` (`LatexJoins.SpelledIsRead` says exactly when). Or a protected word is followed by white space, a comma and
  more text, as in `e.g. , x` (`LatexIdempotence.ReflowIsNotIdempotent`).
- Whatever the word list, a text without markup in whose visible characters no word is spelled is stable
  (`LatexStable.ReflowIsStableOnProse`).
- With markup the same condition suffices if the final trim does not cut the markup (`LatexFixedPoint.ReflowIsStable`):
  no inline command or formula ends in a line break, or in white space at the end of a line, and no comment holds a
  line boundary. Both can break it: a control space before a display, and a form feed in a comment
  (`LatexUnstable.ControlSpaceBeforeBreak`, `LatexUnstable.BoundaryInComment`).
- Comment removal is idempotent, also on inputs like a slash, an empty block comment and a slash: two slashes in a row
  start a line comment before the block comment is seen (`CppComments.RemovalIsIdempotent`).
- The completion columns of a frame with an inline fence show the completion of an older frame, exactly when a
  completion starts between the greatest end of the traced fences so far and the fence's own end
  (`FrameCompletions.FreshIffNoneBetween`).
- `max_frames` of 0 or less still gives one row (`FrameProperties.ReturnedRows`).
- doFrames that nest, which the query returns, can make the one pass lose a frame that a search finds
  (`FrameProperties.NestedDoFramesLoseAFrame`). It loses the frame of a signal exactly if an earlier signal's
  record-draw ended after the frame's DrawFrame began (`FrameProperties.SweepFindsTheFrameIff`), and shows another one
  exactly if a DrawFrame was passed over (`FrameProperties.SweptFrameIsTheFrameIff`); without overlapping doFrames
  neither happens.
- Greedy matching finds at least half of the possible pairs, and half is attained
  (`ClickMatching.GreedyIsNotMaximum`); it finds all of them if no event has two clicks in reach or no click two events
  (`ClickMatching.GreedyIsMaximumIfUncontested`).
- Without any slice the CPU timeline drops a short last segment that is kept otherwise
  (`CpuTime.IdleTimelineIsShorter`).
- Merging the pool's results raises a `KeyError` exactly when some frame failed all its attempts
  (`WorkerPool.MergeResults`).
- Merged strips cover the union of the requests exactly when the requests are pairwise disjoint and no gap between
  neighbours is small enough to be bridged (`IoStrips.StripsCoverUnionIff`).
- Chips with a comma in their label survive a restart only if the label is nothing but commas and a stored row has it
  (`NotificationRestart.RestartIsInvisibleIff`); rows, filter and order survive every restart
  (`NotificationRestart.RestartShowsTheRows`).
- The shortcut for a label that is already at the front skips the unread mark of the label `__all__`
  (`NotificationRestart.ShortcutAgrees`).

## Model

| member | source | states |
|---|---|---|
| `FrameStreams.SkipBefore` | original-source/py_modules/lib_frame_processor_inner.py:173-177 | advancing an iterator while its item starts too early stops at the first item at or after the bound, or at the end |
| `FrameStreams.AdvanceRaisesFloor` | original-source/py_modules/lib_frame_processor_inner.py:305-308 | what a cursor shows after any advances depends only on the highest bound so far |
| `FrameStreams.BiggestBeforeIs` | original-source/py_modules/lib_frame_processor_inner.py:162-170 | the argmax lookup returns the first slice of greatest start among those ending before the bound, and nothing exactly when there is none |
| `FrameSweep.ProcessSignal` | original-source/py_modules/lib_frame_processor_inner.py:298-448 | one signal moves the six cursors to the raised floors and finds exactly the specified frame; a `break` happens only when doFrames or DrawFrames are used up |
| `FrameSweep.Record` | original-source/py_modules/lib_frame_processor_inner.py:504-545 | after each row the table is the de-duplication of all rows found so far and the index set is that of their indexes |
| `FrameSweep.ProcessFrameTrace` | original-source/py_modules/lib_frame_processor_inner.py:294-555 | on every trace the loop, with all its `continue`s and `break`s, returns the de-duplicated rows cut to the limit; the signal counter stops at the first signal at which a stream runs out or the limit is reached, and each other counter is where the signals up to it leave its cursor |
| `FrameSweep.ExhaustedIsFinal` | original-source/py_modules/lib_frame_processor_inner.py:309-312 | once doFrames or DrawFrames are used up no later signal gives a row: the early `break`s lose nothing |
| `FrameSweep.DistinctSweepIsPrefix` | original-source/py_modules/lib_frame_processor_inner.py:552-555 | stopping early gives a prefix of the whole table |
| `FrameProperties.DistinctIsDeduplication` | original-source/py_modules/lib_frame_processor_inner.py:504-509 | kept rows are swept rows with pairwise different frame indexes, and every swept row is represented |
| `FrameProperties.DistinctKeepsNew` | original-source/py_modules/lib_frame_processor_inner.py:504-509 | kept are exactly the rows without a frame index and the first row of each index, in their order |
| `FrameProperties.ReturnedRows` | original-source/py_modules/lib_frame_processor_inner.py:306-555 | every row is ordered in time from VSYNC-app to fence, indexes differ, rows are in doFrame order; a limit k >= 1 keeps the first k rows or all of fewer, and a limit below 1 still gives one row |
| `FrameProperties.ReturnedRowIsExpected` | original-source/py_modules/lib_frame_processor_inner.py:331-352 | where there are expected frame names, the doFrame of every returned row bears one of them, and the expected start of that frame, if known, is at most the VSYNC-app time and the doFrame's own start |
| `FrameProperties.ExpectedSignalGoesOn` | original-source/py_modules/lib_frame_processor_inner.py:331-388 | conversely a signal whose first doFrame meets these conditions and has a record-draw is not skipped: it moves the DrawFrame cursor to that record-draw's end, unless it stood later; a signal that fails them finds nothing and moves no DrawFrame cursor |
| `FrameProperties.SearchIsMatch` | original-source/py_modules/lib_frame_processor_inner.py:305-448 | the search from fresh cursors finds a frame exactly if it satisfies the quantified definition of the frame of that signal, in which all conditions are written out |
| `FrameProperties.SweepIsSearchFrom` | original-source/py_modules/lib_frame_processor_inner.py:298-448 | for sorted streams, doFrames nested or not, the one pass finds for each signal exactly what a search finds that reads DrawFrames from the latest record-draw end of the earlier signals on |
| `FrameProperties.LatestBoundIsGreatest` | original-source/py_modules/lib_frame_processor_inner.py:375-388 | that end is the greatest among the ends of the record-draws of the earlier signals' expected doFrames |
| `FrameProperties.SearchFromIsMatch` | original-source/py_modules/lib_frame_processor_inner.py:305-448 | such a search finds a frame exactly if it satisfies the quantified definition with that bound on its DrawFrame |
| `FrameProperties.SweepFindsTheFrameIff` | original-source/py_modules/lib_frame_processor_inner.py:375-388 | the pass finds the frame of a signal if and only if no earlier signal had a record-draw that ended after that frame's DrawFrame began |
| `FrameProperties.SweptFrameIsTheFrameIff` | original-source/py_modules/lib_frame_processor_inner.py:375-388 | what the pass finds for a signal is that signal's frame if and only if no DrawFrame was passed over between its record-draw and its DrawFrame |
| `FrameProperties.NothingIsPassed` | original-source/py_modules/lib_frame_processor_inner.py:298-388 | where doFrames do not overlap no frame of a signal is moved past |
| `FrameProperties.SweepFindsEveryFrame` | original-source/py_modules/lib_frame_processor_inner.py:298-545 | so, for streams whose doFrames do not overlap, the one pass finds the very frames, in order, that a fresh search per signal finds |
| `FrameProperties.SearchedFramesAreMatches` | original-source/py_modules/lib_frame_processor_inner.py:298-545 | a frame is among them if and only if it is the frame of some signal, said with quantifiers over the trace |
| `FrameProperties.ReturnedIsMatch` | original-source/py_modules/lib_frame_processor_inner.py:298-545 | every row of the table shows, for some signal, the frame with the first DrawFrame from the latest record-draw end of the signals up to it on; it is the frame of that signal exactly if no DrawFrame was passed over |
| `FrameProperties.MatchIsReturned` | original-source/py_modules/lib_frame_processor_inner.py:298-545 | the frame of every signal that no earlier record-draw has moved past is in the table, unless another frame with its index is |
| `FrameProperties.NestedDoFramesLoseAFrame` | original-source/py_modules/lib_frame_processor_inner.py:375-388 | a sorted trace with a resynchronised doFrame inside another on which the moved DrawFrame cursor loses a frame |
| `FrameCompletions.FreshIffNoneBetween` | original-source/py_modules/lib_frame_processor_inner.py:413-439 | a row shows the completion of its own fence if and only if no completion starts between that fence's end and the greatest end of the traced fences of the signals up to its own |
| `FrameCompletions.TracedFenceIsFence` | original-source/py_modules/lib_frame_processor_inner.py:409-417 | a signal's traced fence is the first fence from its DrawFrame's start on, if that ends inside the DrawFrame |
| `FrameCompletions.ReachedDrawFrameIs` | original-source/py_modules/lib_frame_processor_inner.py:356-388 | the DrawFrame a signal reaches is the first one from the latest record-draw end of the signals up to it on, unless it starts after the signal's doFrame ended |
| `FrameCompletions.FreshColumns` | original-source/py_modules/lib_frame_processor_inner.py:437-439 | a row that shows its own completion shows start and end of the first one from the fence's end on, or that end twice where there is none |
| `FrameCompletions.LatestTracedIsGreatest` | original-source/py_modules/lib_frame_processor_inner.py:409-417 | that end is at least the end of every traced fence in the DrawFrame of an earlier signal |
| `FrameCompletions.TracedRowsAreFresh` | original-source/py_modules/lib_frame_processor_inner.py:409-417 | rows of traced fences show their own completion when the fences end in order |
| `FrameCompletions.InlineFenceShowsStaleCompletion` | original-source/py_modules/lib_frame_processor_inner.py:420-439 | a trace on which an inline-fence row shows a completion from before its frame began |
| `ClickMatching.NearestUnused` | original-source/py_modules/generate_task_profile_json.py:537-551 | the inner loop returns the nearest unused click closer than ten seconds, the first on ties, and none exactly if there is none |
| `ClickMatching.MatchGreedily` | original-source/py_modules/generate_cpu_profile_json.py:361-421 | each event in order takes its nearest unused click |
| `ClickMatching.GreedyIsUnique` | original-source/py_modules/generate_task_profile_json.py:530-564 | the greedy rule leaves no choice: two matchings that follow it are equal |
| `ClickMatching.GreedyIsMaximalMatching` | original-source/py_modules/generate_task_profile_json.py:530-564 | the matching is injective, pairs only within ten seconds, and no unmatched event has an unused click within ten seconds |
| `ClickMatching.GreedyIsHalfOptimal` | original-source/py_modules/generate_task_profile_json.py:530-564 | no pairing whatever has more than twice as many pairs |
| `ClickMatching.GreedyIsNotMaximum` | original-source/py_modules/generate_task_profile_json.py:547-549 | two events and two clicks that can all be paired, of which greedy pairs one: the factor one half is attained |
| `ClickMatching.GreedyIsMaximumIfUncontested` | original-source/py_modules/generate_task_profile_json.py:530-564 | if no event has two clicks in reach, or no click two events, no valid pairing has more pairs than greedy finds |
| `ClickMatching.FirstOfEachIsEarliest` | original-source/py_modules/generate_task_profile_json.py:571-574 | the event kept for a label is the earliest one and each label is kept once |
| `ClickMatching.FirstOfEachKeepsNew` | original-source/py_modules/generate_task_profile_json.py:573-576 | kept are exactly the events whose label no earlier event has, in their order |
| `ClickMatching.FindReference` | original-source/py_modules/generate_task_profile_json.py:510-520 | the reference is the input time of the first click that has one, and there is none only if no click has one |
| `ClickMatching.GreedyInFields` | original-source/py_modules/generate_task_profile_json.py:530-553 | in the fields of events and clicks: each event takes the click, not taken before, whose input time, or wall time if it has none, is nearest to the event's time counted from the first event at the reference; below ten seconds, the first on ties; and takes none only if there is none |
| `ClickMatching.Profile.MatchClicksToInputEvents` | original-source/py_modules/generate_task_profile_json.py:504-580 | the profile is left alone without events or without a click with an input time; otherwise its events become the events that took a click in this way, each labelled and dated by its click, sorted by time, with the first event of each label beside them, or only `first_events` is emptied |
| `ClickMatching.EventIsDatedByItsClick` | original-source/py_modules/generate_task_profile_json.py:530-566 | every event afterwards is an event from before with label, application and time of its click, and click and event are less than ten seconds apart when the first event is put at the reference |
| `ClickMatching.LeftOverIsFar` | original-source/py_modules/generate_task_profile_json.py:540-553 | no event without a click and click without an event are less than ten seconds apart |
| `CpuTime.SegmentsTile` | original-source/py_modules/generate_task_profile_json.py:1032-1034 | the segments are non-empty, adjacent and tile the window |
| `CpuTime.CutSlice` | original-source/py_modules/generate_task_profile_json.py:1009-1030 | cutting a clipped slice adds to every segment exactly the time the slice shares with it, and every record names a real segment |
| `CpuTime.AnalyzeCpuTime` | original-source/py_modules/generate_task_profile_json.py:958-1064 | the reported segments are non-empty and adjacent, begin at the window's start and end at its end (without slices, before a tail of at most a quarter), all but the last of full length; each reports the time all slices share with it, the summary the time they share with the window; the cases without window, slices or cores are told apart |
| `CpuTime.TimeIsConserved` | original-source/py_modules/generate_task_profile_json.py:1009-1060 | the segments of the window add up to the clipped slices |
| `CpuTime.TimelineAddsUp` | original-source/py_modules/generate_task_profile_json.py:1056-1062 | the times of any reported segments add up to the time of the slices within them |
| `CpuTime.SegmentCapacity` | original-source/py_modules/generate_task_profile_json.py:1057-1061 | if slices on one core do not overlap, a stretch of time holds at most its length times the number of bound cores |
| `CpuTime.IdleTimelineIsShorter` | original-source/py_modules/generate_task_profile_json.py:962-964 | without slices there is one segment fewer exactly when the tail is at most a quarter and not empty |
| `ThreadStates.AnalyzeThreadStates` | original-source/py_modules/lib_jank_classifier.py:229-358 | every reported figure is the time that the states it is about spend in the window, also per core, blocked function and waker, with and without `running_only`; the rows below say which states these are |
| `ThreadReport.RunningReport` | original-source/py_modules/lib_jank_classifier.py:276-344 | running time counts the nanoseconds of the window in states `Running`, also by core; those of cores 6 and up are the big-core time and the others the small-core time |
| `ThreadReport.WaitingReport` | original-source/py_modules/lib_jank_classifier.py:278-288 | runnable time counts states `R` and `R+`, blocked time `D`, also by the non-empty function recorded on the state, and sleeping time `S`; with `running_only` all are zero |
| `ThreadReport.WholeRowReport` | original-source/py_modules/lib_jank_classifier.py:302-340 | I/O waiting adds whole rows, with `running_only` those of running states; the wake-up latency adds the whole length of states that begin by the window's start and do not run |
| `ThreadReport.NextStateIs` | original-source/py_modules/lib_jank_classifier.py:290-294 | the next state is the first in list order that starts at the end of the sleep or later |
| `ThreadReport.WakerReport` | original-source/py_modules/lib_jank_classifier.py:287-332 | each waker is credited with exactly the sleeps whose next state records it, under its name if the query knows it |
| `ThreadReport.GaplessReport` | original-source/py_modules/lib_jank_classifier.py:287-332 | so in a list without gaps each sleep is credited to the waker recorded on the very next state, and to nobody exactly if there is none |
| `ThreadStates.WindowIsAccounted` | original-source/py_modules/lib_jank_classifier.py:269-288 | for non-overlapping states running + runnable + blocked + sleeping never exceeds the window, and equals it if and only if every instant lies in a running, runnable, blocked or sleeping state |
| `ThreadStates.BreakdownsFit` | original-source/py_modules/lib_jank_classifier.py:326-344 | big and small core time add up to running time; per-function and per-waker times never exceed blocked and sleeping time |
| `WorkerPool.CpuStateSummary.Update` | original-source/py_modules/lib_jank_classifier.py:1141-1152 | each of the eight counters grows by the same counter of the other object, also when it is the same object |
| `WorkerPool.RunRound` | original-source/py_modules/lib_jank_classifier.py:1034-1056 | whatever order futures complete in, the frames whose attempt raises are the failed ones, each once, and all others have their result |
| `WorkerPool.RunPool` | original-source/py_modules/lib_jank_classifier.py:1002-1079 | for every completion order and failure pattern the table has exactly one entry per frame, the worker's result if one of three attempts returns and the fallback otherwise, and the counts are those of the successes and failures |
| `WorkerPool.Accumulate` | original-source/py_modules/lib_jank_classifier.py:1101-1104 | adding a local dictionary item by item adds key by key and in total, in any item order |
| `WorkerPool.MergeResults` | original-source/py_modules/lib_jank_classifier.py:1082-1105 | merging fails exactly if some frame has the fallback entry; otherwise the totals are sums over the frames, so no completion order shows |
| `WorkerPool.CpuTotalIs` | original-source/py_modules/lib_jank_classifier.py:1096-1099 | counter by counter the merged total is the sum over the frames |
| `IoPatterns.AnalyzeIoPatterns` | original-source/py_modules/block_ftrace_io_analysis.py:176-285 | a row is sequential exactly if it starts at most the threshold away from the end of the last earlier row of its device; number, bytes and latency of all six totals are those of the rows with that verdict and direction, an R making a read and a W without an R a write; and each device has one segment for every row of its own, in order |
| `IoPatterns.TotalsAccountForRows` | original-source/py_modules/block_ftrace_io_analysis.py:249-277 | every row counts once as sequential or random; reads and writes count all rows exactly when every row is one of the two |
| `IoStrips.MergeSegments` | original-source/py_modules/block_ftrace_io_analysis.py:287-331 | the strips are those grown from the requests sorted by start |
| `IoStrips.StripsAreGroups` | original-source/py_modules/block_ftrace_io_analysis.py:292-331 | they are the sorted requests in consecutive groups: a strip starts with its first request and is as long as all of its requests, a request joins exactly if it starts at most the threshold beyond the strip so far, colours alternate from 0, and only a last strip without a sector is dropped |
| `IoStrips.FinishLayout` | original-source/py_modules/block_ftrace_io_analysis.py:301-329 | strips are sorted, more than the threshold apart, of alternating colours, and hold exactly as many sectors as the requests |
| `IoStrips.EveryRequestIsHeld` | original-source/py_modules/block_ftrace_io_analysis.py:307-309 | at threshold 0 every request lies inside one strip, overlapping or not |
| `IoStrips.StripsCoverUnionIffDisjoint` | original-source/py_modules/block_ftrace_io_analysis.py:301-321 | at threshold 0 the strips cover exactly the union of the requests if and only if the requests are pairwise disjoint |
| `IoStrips.StripsCoverUnionIff` | original-source/py_modules/block_ftrace_io_analysis.py:287-331 | at any threshold the strips cover exactly the union of the requests, none of them empty, if and only if the requests are pairwise disjoint and no gap between neighbours is at most the threshold |
| `LatexScanners.ConsumeGroup` | original-source/powertool/command_tools.py:63-83 | the loop over an explicit stack ends where the recursive reading of nested groups ends, strictly past its start |
| `LatexScanners.GrammarIsScanned` | original-source/powertool/command_tools.py:63-83 | every text spelled by the grammar of nested groups, escapes and stray closers is read to its closing bracket |
| `LatexScanners.ScannedIsGrammar` | original-source/powertool/command_tools.py:63-83 | conversely a group that is closed was spelled by that grammar |
| `LatexScanners.UnclosedRunsToEnd` | original-source/powertool/command_tools.py:83-83 | a group that is not closed is read to the end of the text |
| `LatexScanners.ConsumeCommand` | original-source/powertool/command_tools.py:86-111 | name and end of a command with its star and all its argument groups |
| `LatexScanners.ConsumeMath` | original-source/powertool/command_tools.py:114-126 | inline and display math end past the first delimiter with an even run of backslashes before it, or at the end of the text |
| `LatexScanners.ConsumeCommandMath` | original-source/powertool/command_tools.py:129-140 | math between backslash brackets ends past the first closing command whose backslash is not itself escaped |
| `LatexReflow.MatchProtectedWord` | original-source/powertool/command_tools.py:170-215 | the nested loops find the first word of the list that is read there between word boundaries; the rows below say what reading and boundaries are |
| `LatexReading.MatchIsReading` | original-source/powertool/command_tools.py:176-203 | a match reads the word character by character: each one is its like whatever the case, a space takes all white space there is, and after a full stop inside the word white space is skipped |
| `LatexReading.ReadingIsMatch` | original-source/powertool/command_tools.py:176-203 | conversely every such reading is a match, and puts out the text's own characters and single spaces |
| `LatexReading.ProtectedWordIs` | original-source/powertool/command_tools.py:171-213 | a word is matched only if no letter, digit, underscore or tie stands right before it, or right after it past the comma that it takes along |
| `LatexReading.WordBetweenIsMatched` | original-source/powertool/command_tools.py:171-213 | conversely a word of the list read between other neighbours is matched, and where no two words are read in one place it is that word |
| `LatexReflow.AppendNewline` | original-source/powertool/command_tools.py:234-238 | trailing spaces go from the list, and a break is added unless one is there or the list is empty |
| `LatexReflow.Place` | original-source/powertool/command_tools.py:240-318 | editing the list in place at the end of each branch keeps it equal to the tokens laid out by a rule about neighbours |
| `LatexReflow.Lex` | original-source/powertool/command_tools.py:240-318 | the branch taken at a character, the text it contributes and its end, strictly past the start and within the text |
| `LatexReading.DollarIsMath` | original-source/powertool/command_tools.py:291-301 | a dollar starts a formula in the text, two start a display, up to the first unescaped dollar or pair of dollars |
| `LatexReading.BackslashIsMath` | original-source/powertool/command_tools.py:256-269 | a backslash with a bracket starts a display, with a parenthesis a formula in the text, up to the first closing command whose backslash is not escaped |
| `LatexReading.BackslashIsCommand` | original-source/powertool/command_tools.py:271-289 | any other backslash starts a command, by all letters there are or one other character; it is a display exactly if its name is a block command, or a standalone one with nothing else on its line |
| `LatexReading.CommandEndsAt` | original-source/powertool/command_tools.py:86-111 | a command ends past its name, a star after letters, and all its groups in braces or brackets; white space is passed only before a group |
| `LatexContent.LexemeKeeps` | original-source/powertool/command_tools.py:248-306 | every branch keeps the visible characters of the stretch it consumes, in order, and starts with its first one |
| `LatexContent.ReflowKeepsContent` | original-source/powertool/command_tools.py:218-320 | for every text the visible characters of the output are those of the input, in order, through all tokens, separators and the final trim |
| `LatexFormat.FormatCommaPeriodLines` | original-source/powertool/command_tools.py:218-320 | the one-pass loop terminates on every text and returns the layout of its tokens, trimmed, with the final line feed kept |
| `LatexFormat.LayoutOfText` | original-source/powertool/command_tools.py:228-318 | in the output list separators are never leading or adjacent; a break follows a token if and only if it is a comma, full stop, comment or display, or a display comes next; otherwise a space follows if and only if white space came before the next token and that is no comma or full stop |
| `LatexComments.CommentInOutput` | original-source/powertool/command_tools.py:218-320 | in the output text of every input a line end, or nothing, follows each comment, so no comment swallows later text |
| `LatexStops.StopInOutput` | original-source/powertool/command_tools.py:218-320 | in the output text of every input a line end, or nothing, follows each comma and full stop that is read as a mark |
| `LatexStops.StopBeforeTieBreaks` | original-source/powertool/command_tools.py:209-320 | so a full stop right before a tie, outside markup and comments, is followed by a line end |
| `LatexStops.FinalLineFeedKept` | original-source/powertool/command_tools.py:320-320 | the output ends with a line feed if and only if the text does |
| `LatexComments.CommentIsCutIff` | original-source/powertool/command_tools.py:166-167 | a comment is printed with a line end inside, its rest becoming text, if and only if it holds a line boundary; otherwise it is printed as it is |
| `LatexStable.NoWordInProse` | original-source/powertool/command_tools.py:170-215 | where no protected word is spelled in the visible characters, none is matched at any position, whatever the white space |
| `LatexStable.NeatLinesStay` | original-source/powertool/command_tools.py:166-167 | stripping and joining the lines of a text that has only single spaces and line feeds takes off its last line feed and nothing else |
| `LatexIdempotence.ReflowIsNotIdempotent` | original-source/powertool/command_tools.py:206-208 | with the program's word lists, formatting one text twice differs from formatting it once |
| `LatexFixedPoint.MarkupFreeIsStableIff` | original-source/powertool/command_tools.py:218-320 | for every text without markup, formatting it twice is formatting it once if and only if its tokens are settled: no word is joined on the second reading, or the first that is takes in the rest of the text |
| `LatexFixedPoint.ReflowIsStable` | original-source/powertool/command_tools.py:218-320 | for every text, with commands, formulas, comments and protected words, whose markup the trim does not cut and whose tokens are settled, formatting it twice is formatting it once |
| `LatexJoins.SpelledIsRead` | original-source/powertool/command_tools.py:170-215 | at every token of the printed text a protected word is read from there on if and only if the tokens from there on spell it as single characters, with the separators a word allows |
| `LatexProtected.ProtectedReadAgain` | original-source/powertool/command_tools.py:170-215 | a protected word of the first pass is read again where it was printed, unless it takes up a comma that white space kept apart |
| `LatexPrinted.MarkupReadAgain` | original-source/powertool/command_tools.py:86-140 | every command and formula the trim does not cut is read again where it was printed, finished or never closed, with the kind it had unless it has come to stand alone on its line |
| `LatexPrinted.CommentReadAgain` | original-source/powertool/command_tools.py:143-147 | every comment of one line is read again where it was printed |
| `LatexMarkup.MarkupIsRead` | original-source/powertool/command_tools.py:63-140 | the scanners of groups, commands and the four kinds of math end every construct where one machine that reads character by character says, whatever the text |
| `LatexSecondPass.FirstPass` | original-source/powertool/command_tools.py:166-167 | the output of a pass is its tokens, each stripped line by line, with the separators between them and the final line feed |
| `LatexLines.TrimIsStraight` | original-source/powertool/command_tools.py:166-167 | splitting, stripping and joining the lines of a text that starts visibly is stripping line by line from the left and dropping the white space at the end |
| `LatexUnstable.DigitAfterWord` | original-source/powertool/command_tools.py:209-213 | a text that changes on the second pass because a digit followed a word |
| `LatexUnstable.SpaceBeforeStop` | original-source/powertool/command_tools.py:240-318 | a text that changes because white space stood before the full stop of a word |
| `LatexUnstable.ControlSpaceBeforeBreak` | original-source/powertool/command_tools.py:166-167 | a text that changes because the trim strips a control space, whose backslash then takes the line feed |
| `LatexUnstable.BoundaryInComment` | original-source/powertool/command_tools.py:143-147 | texts that change because the trim cuts a comment at a line boundary that does not end it |
| `LatexEnglish.EnglishIsOrderly` | original-source/powertool/command_tools.py:23-60 | the program's word lists meet what these theorems ask |
| `PyText.TrimKeeps` | original-source/powertool/command_tools.py:166-167 | trimming lines and text changes white space only |
| `CppComments.RemoveCppComments` | original-source/powertool/command_tools.py:339-401 | the four-state scanner returns the segmentation of the source into code, literals and comments with comments replaced by the line ends they contain |
| `CppComments.LiteralEndsAtFirst` | original-source/powertool/command_tools.py:364-376 | a literal ends past its first quote that is not escaped, where escaped means an odd run of backslashes right before it |
| `CppComments.LineEndIsFirst` | original-source/powertool/command_tools.py:371-381 | a line comment ends at the first line end |
| `CppComments.BlockEndIsFirst` | original-source/powertool/command_tools.py:382-393 | a block comment ends past the first star and slash after its opening |
| `CppComments.LiteralStays` | original-source/powertool/command_tools.py:349-376 | what starts with a double quote or an apostrophe outside literals and comments stays verbatim, to the first unescaped quote of its kind |
| `CppComments.LineCommentGoes` | original-source/powertool/command_tools.py:355-387 | what starts with two slashes goes, up to the next carriage return or line feed |
| `CppComments.BlockCommentLeavesLineEnds` | original-source/powertool/command_tools.py:358-399 | what starts with a slash and a star goes, past the next star and slash, except for the line ends in it |
| `CppComments.LineEndsStay` | original-source/powertool/command_tools.py:339-401 | the sequence of carriage returns and line feeds is the same before and after |
| `CppComments.OutputIsSubsequence` | original-source/powertool/command_tools.py:339-401 | nothing is invented: the output is a subsequence of the input |
| `CppComments.OutputIsCommentless` | original-source/powertool/command_tools.py:339-401 | read again, the output has no comment, and its literals are those of the source, verbatim and in order |
| `CppComments.RemovalIsIdempotent` | original-source/powertool/command_tools.py:339-401 | removing comments twice is removing them once |
| `CppComments.UnchangedIffCommentless` | original-source/powertool/command_tools.py:339-401 | a text is left alone if and only if it has no comment |
| `SeenIds.RememberKeeps` | original-source/powertool/page1.py:1167-1176 | remembering an id keeps set and queue in agreement, without repetition and within the limit, and drops only the oldest id |
| `SeenIds.RememberPushes` | original-source/powertool/page1.py:1167-1176 | a new id comes last in queue and ring, of which each loses its oldest id only where it is full; an empty or known id changes nothing |
| `SeenIds.RememberAllKeeps` | original-source/powertool/page1.py:1167-1176 | after any ids the queue is the end of the old queue followed by the ids that were new |
| `SeenIds.ReloadIsExact` | original-source/powertool/page1.py:619-627 | remembering a stored queue from nothing gives that queue back |
| `SessionLabels.LabelRoundTrip` | original-source/powertool/page1.py:76-83 | the label that was prepended in brackets is the one extracted |
| `SessionLabels.LabelIs` | original-source/powertool/page1.py:76-83 | the label is what stands between an opening bracket at the very start and the next closing bracket, if that is not empty; any other message is `(unlabeled)` |
| `SessionLabels.ArrivalOrders` | original-source/powertool/page1.py:986-990 | moving the arriving label to the front keeps the list equal to the distinct labels by last arrival |
| `SessionLabels.OrderIsUnique` | original-source/powertool/page1.py:968-993 | there is only one list ordered by last arrival |
| `SessionLabels.AgainIsNothingNew` | original-source/powertool/page1.py:789-797 | replaying the newest arrivals leaves the list unchanged and brings lost labels among them back to their places |
| `StoredChips.ComesBackIff` | original-source/powertool/page1.py:1029-1029 | the chips come back from the comma-joined text and the replay if and only if each label with a comma is nothing but commas and is replayed |
| `NotificationPage.Page.constructor` | original-source/powertool/page1.py:609-810 | the start loops build the state that the settings describe: window in three phases, chips by replay, filter, rows |
| `NotificationPage.Page.RememberSeenId` | original-source/powertool/page1.py:1167-1176 | set, queue and ring change together as specified |
| `NotificationPage.Page.OnReceivedMsg` | original-source/powertool/page1.py:1039-1065 | a message with a known id, its own or the derived one, only updates the window; any other is remembered, labelled, shown and stored, and is emitted with its id, if notification is wanted |
| `NotificationPage.Page.TouchLabel` | original-source/powertool/page1.py:968-993 | chips, unread labels and stored chips change as specified, by the shortcut or the general path |
| `NotificationPage.Page.AppendItem` | original-source/powertool/page1.py:1067-1150 | the row comes first, with an id, hidden as the filter says, and the count grows by one |
| `NotificationPage.Page.PersistState` | original-source/powertool/page1.py:1152-1165 | the newest rows up to the limit are stored oldest first, with ring and queue |
| `NotificationPage.Page.OnChipClicked` | original-source/powertool/page1.py:930-941 | takes the chip's unread mark, sets the filter to the label, or to none for the first chip, hides and shows every row accordingly, and stores it |
| `NotificationPage.Page.ClearAllMessages` | original-source/powertool/page1.py:1218-1234 | empties rows and count and stores them, unless there are rows and it was not confirmed |
| `NotificationPage.Page.OpenMessageById` | original-source/powertool/page1.py:1242-1268 | opens the newest row with the id, if there is one, and takes the unread mark of its label |
| `NotificationRuns.ReachableIsConsistent` | original-source/powertool/page1.py:609-1065 | after any events from any settings: window consistent, count equals rows, a row hidden exactly if a filter is set and its label differs, unread labels known |
| `NotificationEvents.ClickFilters` | original-source/powertool/page1.py:930-941 | at any point of any run a click on a chip makes its label the filter, or none for `__all__`; exactly the rows with another label are hidden, only that label loses its unread mark, the filter is what is stored and loaded again, and nothing else changes |
| `NotificationEvents.OpeningReads` | original-source/powertool/page1.py:1242-1268 | opening a row takes the unread mark of its label and changes nothing else |
| `NotificationEvents.MessageIsShown` | original-source/powertool/page1.py:1041-1065 | a message with neither id known becomes the first row, with its id and hidden if its label is filtered out; both ids enter the window in turn, its label becomes the first chip and is unread, and rows, window, chips and filter are stored |
| `NotificationEvents.DuplicateIsNoted` | original-source/powertool/page1.py:1050-1057 | a message with either id known only has both ids remembered |
| `NotificationEvents.ClearingEmpties` | original-source/powertool/page1.py:1218-1234 | a clear that is confirmed, or finds no rows, empties rows and stored messages and changes nothing else |
| `NotificationStart.WindowIsRead` | original-source/powertool/page1.py:612-645 | a start from any settings makes the window out of the stored queue, then the ring, then both ids of each stored message, as one bounded queue without repetition |
| `NotificationStart.RowsAreRead` | original-source/powertool/page1.py:646-810 | it shows the stored messages, the last one on top, with derived ids where they have none, under the stored filter, nothing unread |
| `NotificationStart.ChipsAreRead` | original-source/powertool/page1.py:646-800 | its chips are the stored ones with the label of each stored message moved to the front in turn |
| `NotificationRestart.ShortcutAgrees` | original-source/powertool/page1.py:981-993 | in every run the shortcut agrees with the general path if and only if the label is not the reserved one or is unread already |
| `NotificationDedup.LoadOrder` | original-source/powertool/page1.py:619-645 | after a start the window is the stored window followed by the ids found in the ring and the messages |
| `NotificationDedup.NoDoubleNotification` | original-source/powertool/page1.py:1050-1065 | an accepted message comes again, after any events including clears, crashes and restarts: it is dropped whenever fewer ids than the window holds were newly remembered |
| `NotificationDedup.NoDoubleId` | original-source/powertool/page1.py:1050-1057 | so is any message with the same id, one id earlier |
| `NotificationDedup.NoDoubleWithin` | original-source/powertool/page1.py:1050-1065 | the bound counted in events: two ids per message, the ring and twice the stored messages per restart |
| `NotificationDedup.NoDoubleWithin2499` | original-source/powertool/page1.py:65-67 | with the program's limits, not within 2499 further messages, with any clicks and clears among them |
| `NotificationDedup.WindowIsExact` | original-source/powertool/page1.py:1167-1176 | between restarts the bound is exact: the message is still known if and only if fewer ids were new, or its id is among the last of those |
| `NotificationDedup.DuplicateIsDropped` | original-source/powertool/page1.py:1053-1057 | a duplicate, by either of its ids, changes nothing but the window, and from then on every copy with its fallback id is a duplicate, under any id |
| `NotificationDedup.RestartAddsNothingIff` | original-source/powertool/page1.py:619-645 | a restart adds no id to the window if and only if the ids of the ring and of the stored messages are all in it |
| `NotificationRestart.RunTracks` | original-source/powertool/page1.py:968-1065 | while every restart so far could restore the chips, they are exactly the labels of the accepted messages, each once, by last arrival |
| `NotificationRestart.RunShows` | original-source/powertool/page1.py:968-1165 | after any events, restarts of every kind among them, the rows are the newest accepted messages and the settings are in step with what is shown |
| `NotificationRestart.RestartShowsTheRows` | original-source/powertool/page1.py:609-810 | at any point of any run a restart shows the newest rows, hidden as before, under the same filter |
| `NotificationRestart.RestartIsInvisibleIff` | original-source/powertool/page1.py:609-810 | while every restart so far could restore the chips, the next one shows the same chips if and only if each label with a comma is nothing but commas and the label of a stored row |
| `NotificationRestart.RestartIsInvisible` | original-source/powertool/page1.py:609-810 | with no comma in any label a restart at any point of any run, restarts included, shows the same page |
| `NotificationRestart.CommaChipIsLost` | original-source/powertool/page1.py:1029-1029 | one message with a comma in its label and a restart lose a chip |
| `Utf8.DecodeEncode` | original-source/powertool/windows_notifications.py:437-437 | decoding the UTF-8 bytes of a text gives the text back |
| `Utf8.DecodedHeadIsEncoded` | original-source/powertool/windows_notifications.py:437-437 | what is decoded as a character is the very encoding of that character: overlong forms, surrogates and stray bytes are rejected |
| `ToastForms.QuotedByteIs` | original-source/powertool/windows_notifications.py:437-437 | letters, digits and the marks `_.-~` are printed as they are, any other byte as a percent sign and two upper-case hexadecimal digits |
| `ToastLink.UnquoteQuote` | original-source/powertool/windows_notifications.py:437-437 | percent-decoding what percent-encoding (section 2.1 of RFC 3986) printed gives the text back |
| `ToastLink.ParsePrintedLink` | original-source/qt.py:31-40 | parsing the printed link gives the id back, for every id |
| `ToastForms.PayloadIs` | original-source/qt.py:14-29 | the payload comes from the first argument that has one: the argument after the flag, the rest of one that starts with the flag and an equals sign, or a whole one with a link in it; otherwise it is empty |
| `ToastForms.QuotesGo` | original-source/qt.py:25-29 | white space around a payload and then one pair of double quotes are removed |
| `ToastForms.QueryIs` | original-source/qt.py:35-37 | the query of a link is what stands between its first question mark and its fragment |
| `ToastForms.ValueIs` | original-source/qt.py:36-39 | of the pairs between ampersands the first with the key and a value that is not empty counts, plus signs reading as spaces |
| `ToastLink.LinkRoundTrip` | original-source/qt.py:14-40 | for every id and all surrounding arguments: printed, wrapped in the activation argument, extracted from argv, unquoted and parsed, the id is the same, in all four forms the link can arrive in |

## Left out

- Qt widgets, dialogs, scrolling, markdown, toast display, COM and WinRT calls, the named pipe and its read limit, the mutex and the tray: user interface and foreign calls.
- SQL queries, pandas storage, CSV, JSON and report writing, plotting: query results are given sequences, and stored settings are records of values, so malformed JSON is not modelled.
- `rendering_time`, `deadline`, `is_drop` and the other columns joined from the frame timelines: they depend on joins outside the sweep and on a variable that may be unset; a missing VSYNC-app track, which raises, is not modelled.
- ClickMatching.NearestUnused: distances are integer nanoseconds, so rounding in `total_seconds` is not modelled.
- ClickMatching.Profile.MatchClicksToInputEvents: events with equal times keep their order, where the data frame's sort may reorder them.
- CpuTime.AnalyzeCpuTime: percentages are left as their numerators and denominators; the case of a missing package name is not modelled.
- ThreadStates.AnalyzeThreadStates: `io_wait` that is a missing number and the list of core occupiers of runnable states are not modelled.
- WorkerPool.MergeResults: `frame_stages_breakdown` and the text columns are represented only by the missing key that makes the write-back fail; exceptions a worker catches itself are not modelled.
- IoPatterns.AnalyzeIoPatterns: the time span of the rows is not modelled, and latencies are real numbers without rounding.
- LatexFixedPoint.ReflowIsStable: sufficient, not necessary, for texts with markup: a joined word right before a display, or an unclosed group before the final line feed, may leave the text as it is; texts without markup have the exact condition.
- PyText.TrimKeeps: which characters are letters, digits or have a lower-case form is a parameter, not a table.
- ToastLink.LinkRoundTrip: arguments before the link must not themselves look like an activation; links other than the printed ones, such as hosts in brackets that the URL parser rejects, are not covered.
- Utf8.DecodeEncode: how many replacement characters a malformed byte sequence gives is not modelled.
- NotificationPage.Page.OnReceivedMsg: messages are complete records; the defaults for short tuples are not modelled.
- The rules of `classify_jank_cause`, frame processor servers and monitors, adb and network clients, the notification server: easy members, or behaviour that hinges on clocks, processes and code that is not part of this model.
