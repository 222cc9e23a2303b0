# Verification of loglite

loglite is a single-process log store. Producers put entries into a bounded backlog, one task writes them to SQLite in
batches, live-tail sessions and queries read them, and a vacuum task deletes old rows at the same time. This project
models that logic in Dafny and proves what it keeps.

The parts, bottom up:

- `Sequences`, `IdSets`, `Results`: splitting, joining, sets of ids, results.
- `Framing`, `Tailer`, `TailerRuns`, `TailWorker`: the file harvester. Framing refines a one-shot specification for
  every chunking; the tailer is a state machine interleaved with other processes that append to, truncate and rename
  files; `TailWorker.Worker` is its thread as an object, whose loops stay in runs of that machine.
- `Backlog`, `Dictionary`, `Writer`, `Storage`, `Aborts`: the drop-oldest buffer, the column dictionary, the insert
  transaction, what a committed or aborted batch leaves, and exactly when one is aborted.
- `Queries`, `Values`, `Answers`, `QueryErrors`, `EndToEnd`: filters pushed through the dictionary, what comparisons
  and answers mean without the code's own terms, exactly when a query errs, and queries that answer over the original
  entries.
- `LiveTail`, `Service`, `Accounting`, `Runs`, `Conservation`, `Decoding`, `Survival`, `TailRuns`,
  `Publishing`, `Flushing`, `Counterexamples`: the whole service as a machine. One event is one critical section, one job on the write strand or
  one segment of a coroutine; every sequence of events is a run, and an event that cannot happen changes nothing.
  `Flushing` and the class in `LiveTail` are the code of those steps; the flush task's loop stays in sound states of
  such runs.
- `FastCount`, `Timestamps`, `Vacuum`, `VacuumTask`, `VacuumRuns`: the id-span row estimate, retention by age and size,
  the incremental page pass, the task's code, and runs in which only it deletes.
- `UrlForm`, `FilterWire`, `ClientQueries`: from the frontend's query parameters to the filters the server runs.
- `Migrations`, `ReadPool`, `LiveConsole`: startup migrations, the read connection pool, the frontend's live buffer.

Methods of classes follow the code's loops and updates; each is proved equal to a specification function, and the
lemmas about those functions and about runs state what the program promises.

## Assumptions

- Row ids: `AUTOINCREMENT` (configs/basic.yaml:28) gives the stored sequence plus one; a plain `INTEGER PRIMARY KEY`
  (README.md:70) gives the greatest present id plus one. Both are modelled; theorems say which they need.
- A transaction takes effect entirely or not at all.
- The dictionary table gives a text back cut at its first NUL, because it is bound as a C string
  (cpp/src/writer_database.cpp:300), and then as the NUMERIC affinity of its column leaves it
  (cpp/src/writer_database.cpp:33). That affinity is a parameter: any function that brings no NUL in and changes
  nothing the second time. The affinities of the log table's own columns are not modelled.
- Queries assume that the id and timestamp columns are not compressed.
- Sizes, ratios and the 95 percent watermark are exact rationals. Integers are unbounded.
- The backlog holds at least one entry; page size and vacuum budget are at least 1.
- A task whose coroutine throws ends (cpp/src/server.cpp:68-74), so nothing is inserted after a failed batch until
  a restart.
- Clocks, sleeps, debounce, failing calls and the order of concurrent steps are free choices.

## Where the code does less than it seems to

- A file that only grows is ingested again from its start when one identity check fails or finds the path gone for a
  moment (`TailerRuns.FailedCheckRepeatsALine`, `TailerRuns.VanishedPathRepeatsALine`), or when a rotation falls between
  the identity check and the size check, which looks at the path and not at the open stream
  (`TailerRuns.RotationBetweenChecksRepeatsALine`). Exactly when: `TailerRuns.GrowingFileIsTailedExactlyOnce`,
  `TailerRuns.ResetExactlyWhenPathMoved`.
- With the quick-start schema, vacuum emptying the table lets an id be reused, and an open live tail misses the entry:
  one that has read past the id (`Counterexamples.PlainKeyCanLoseALiveEntry`), and one that was opened above it
  (`Counterexamples.PlainKeyCanLoseAnEntryBelowTheStart`). Exactly when: `TailRuns.TailIsCompleteExactlyWhenNotOutrun`.
- Texts of compressed columns can be lost at a restart, although memory holds them whole until then: one with a NUL,
  such as "a\0b", one that looks like a number, such as "007", and one that another text is given back as. Its id then
  decodes to another text or to none, and a query that reports the column is wrong or an error
  (`Counterexamples.TextTakesOver`, `Counterexamples.TextsAreLost`). Exactly when, for a run:
  `Decoding.AlwaysDecodesExactlyWhen`; for the entries producers may hand in:
  `Survival.TextsOutliveRestartsExactlyWhen`; for queries: `EndToEnd.QueriesAnswerOverOriginals`.
- A failed batch leaves dictionary ids in memory that the table does not hold; a later insert in the same process would
  lose text (`Counterexamples.InsertingAfterAnAbortLosesText`).
- `~=` on a compressed column also matches texts contained in the wanted one
  (`Queries.SubstringMeansContainsExactlyWhen`).
- A filter for equality with a boolean never finds it in a compressed column: the filter prints a word, the column
  holds 0 or 1 (`Values.EqualityFindsValueExactlyWhen`).
- Numbers and booleans in compressed columns come back as text. Where every row decodes, queries answer over the values
  handed in exactly when compressed columns hold only texts and nulls (`EndToEnd.QueriesAnswerOverOriginals`).
- After a compressed filter without candidates, later filters are not validated
  (`QueryErrors.InvalidFilterCanPassUnnoticed`, `QueryErrors.InvalidFilterIsReportedExactlyWhen`). A negative limit is an
  error only when some row matches (`QueryErrors.NegativeLimitFailsExactlyWhen`).
- Age-based deletion removes nothing when the least timestamp is empty, when it is exactly the cutoff although rows
  stamped so are stale, or when it is an integer that as a text is not below the cutoff
  (`Vacuum.StaleRowsCanStay`, `Vacuum.StaleRemovalExactlyWhen`).
- A batch drained while the log table has no columns to fill vanishes without an error, and entries in flight are lost
  at exit; both have a status of their own in `Conservation.EveryEntryIsInOnePlace`.
- Filter values with commas, trailing spaces, or a leading `=` under `>` and `<` do not survive the wire, and a filter
  on a field named `limit`, `offset` or `fields` replaces that parameter (`FilterWire.PrintParseExactlyWhenCarried`,
  `ClientQueries.PagingArrivesExactlyWhenNoFilterNamesIt`, `ClientQueries.FieldsArriveExactlyWhen`).
- A console with `maxLogs` 0 keeps every record, and with a negative one it drops its oldest records at each
  message (`LiveConsole.ShowsNewestExactlyWhenPositive`).

## Model

| member | source | states |
|---|---|---|
| Framing.FramingIsChunkIndependent | cpp/src/harvesters/file.hpp:323-363 | for every byte stream and every split of it into reads, the lines processed and the state left over are those of the one-shot framing: split on newline, drop raw lines above the limit, strip one CR, drop empties; the buffer never exceeds the limit and is empty while dropping |
| Framing.FeedIsOneShot | cpp/src/harvesters/file.hpp:323-345 | the byte loop refines the one-shot framing of the whole stream |
| Framing.FeedChunksIsFeed | cpp/src/harvesters/file.hpp:301-318 | feeding chunks one by one is feeding their concatenation |
| Framing.LineIsHandedOver | cpp/src/harvesters/file.hpp:347-363 | a line fed with its newline is handed over whole, without one CR if it ends in one; above the limit, which counts that CR, it is not |
| Framing.CrlfFramesAsLf | cpp/src/harvesters/file.hpp:347-363 | a stream of lines below the limit that do not end in CR is handed over line by line, whole, with either line end |
| Framing.PartialLineIsFlushed | cpp/src/harvesters/file.hpp:392-411 | what closing hands over of a line without its newline: all of it, CR included, if it is not too long and that is wanted |
| Framing.PassEndsAtFirstShort | cpp/src/harvesters/file.hpp:301-318 | all chunks of a pass but the last fill the read buffer, and it ends early only on one that does not |
| Framing.FileHarvester.ConsumeBytes | cpp/src/harvesters/file.hpp:323-345 | the loop changes the pending line, the dropping flag and the processed lines exactly as the framer specification says, whose one-shot meaning is FeedIsOneShot |
| Framing.FileHarvester.ProcessFinishedLine | cpp/src/harvesters/file.hpp:347-363 | finishing a line: overlong lines vanish; otherwise the line is handed over, one trailing CR cut off and nothing else, unless it is empty and empty lines are ignored |
| Framing.FileHarvester.ReadAvailable | cpp/src/harvesters/file.hpp:289-321 | a polling pass over a given list of reads stops after the first short or empty one or where the list ends; offset, total and framer account for exactly the chunks it took |
| Framing.FileHarvester.FlushOrDropPendingLine | cpp/src/harvesters/file.hpp:392-411 | closing processes or drops the partial line and leaves a fresh framer |
| Framing.CutLines | py/loglite/harvesters/socket.py:43-46 | the inner loop hands over every complete non-empty line of the buffer and keeps the unterminated rest |
| Framing.HandleClient | py/loglite/harvesters/socket.py:35-46 | over all reads of a connection the lines handed over are the complete non-empty lines of the concatenation |
| Framing.RawLinesAgree | cpp/src/harvesters/file.hpp:323-363 | for either setting of ignore_empty_lines, the file framing keeps exactly the non-empty raw lines if and only if every raw line is short enough, does not end in CR, and is not an empty line the framer keeps |
| Framing.TwoFramersAgree | cpp/src/harvesters/file.hpp:323-363 | for either setting and any two chunkings, the file framer and the socket loop emit the same lines of a stream if and only if no complete line is one they treat differently: overlong, ending in CR, or empty and not ignored |
| Tailer.TailingIsAccounted | cpp/src/harvesters/file.hpp:160-240 | over every interleaving with other processes: processed lines are, file by file, the framing of the bytes read plus the flushed partial line; those bytes are content[start..offset] while the file is only appended to; only the first opened file may start elsewhere than at 0 |
| Tailer.OpeningStartsWhereAsked | cpp/src/harvesters/file.hpp:242-287 | in every run a file is opened at its start, unless it is the first and tailing begins at the end: then at the size the path had when last looked at |
| Tailer.SizeIsAskedExactlyAtEnd | cpp/src/harvesters/file.hpp:267-273 | opening looks at the size if and only if this is the first file and tailing begins at the end |
| TailerRuns.ReadingsEndExactlyByDisturbances | cpp/src/harvesters/file.hpp:184-235 | over every interleaving, until stopped, a reading ends once for each identity check that fails or sees another path and each size check that sees a shorter file, and for nothing else |
| TailerRuns.GrowingFileIsTailedExactlyOnce | cpp/src/harvesters/file.hpp:184-235 | a file that only grows and whose path no other file takes, with failing calls, a vanishing path and other files changing at will, is read from its start again if and only if such a check happened; otherwise it is ingested exactly once from where it was opened |
| TailerRuns.ResetExactlyWhenPathMoved | cpp/src/harvesters/file.hpp:218-230 | for an append-only file the truncation branch is taken if and only if the path meanwhile names another file shorter than the offset, or the offset lies past the end of the file, which happens only to the first file, opened at an end taken from another |
| TailerRuns.RotationBetweenChecksRepeatsALine | cpp/src/harvesters/file.hpp:186-230 | a run in which a rotation between the two checks makes an append-only file be read twice |
| TailerRuns.FailedCheckRepeatsALine | cpp/src/harvesters/file.hpp:190-204 | a run in which one failing identity check makes an append-only file in place be read twice |
| TailerRuns.VanishedPathRepeatsALine | cpp/src/harvesters/file.hpp:190-204 | the same when the path vanishes for the moment of one check |
| Tailer.EndSegmentAccounted | cpp/src/harvesters/file.hpp:384-390 | closing accounts for the segment with its flushed partial line |
| Tailer.ReadAccounted | cpp/src/harvesters/file.hpp:301-318 | a read appends to the fed bytes exactly the next bytes of the file |
| TailWorker.Worker.OpenStep | cpp/src/harvesters/file.hpp:242-287 | open_file between two file-system calls is the Observe step of the machine: stat, open, stat again, and the size if and only if the first file is to be read from its end, which is then where it starts |
| TailWorker.Worker.ReadStep | cpp/src/harvesters/file.hpp:301-318 | one stream read is the Read step: offset, framer, history and the end of the pass |
| TailWorker.Worker.CheckIdentity | cpp/src/harvesters/file.hpp:190-216 | a missing or different path starts the drain, anything else goes on to the size check |
| TailWorker.Worker.CheckSize | cpp/src/harvesters/file.hpp:218-230 | a path shorter than the offset flushes the partial line and restarts at 0 |
| TailWorker.Worker.CloseFile | cpp/src/harvesters/file.hpp:384-390 | closing ends the segment and forgets the file |
| TailWorker.Worker.ShutDown | cpp/src/harvesters/file.hpp:237-239 | shutdown closes an open file |
| TailWorker.Worker.ReadAvailable | cpp/src/harvesters/file.hpp:289-321 | the read loop: until a read is short or empty, the seek fails, or a stop is requested; a pass that is not stopped, over a file nothing else touches and without failed or short reads, ends at the end of the file; the worker stays in a run of the machine with everything accounted for |
| TailWorker.Worker.OpenFileAtPath | cpp/src/harvesters/file.hpp:242-287 | open_file call by call, giving up where a call fails |
| TailWorker.Worker.DrainForGracePeriod | cpp/src/harvesters/file.hpp:365-382 | reads, and reads on until the grace period is over, then closes the file: barring a stop, a failed or short read and another process touching it, its last segment goes to the end of the file, and an append-only file has been read whole from where the segment began |
| TailWorker.Worker.CheckPath | cpp/src/harvesters/file.hpp:190-230 | the two checks and what they lead to |
| TailWorker.Worker.RunUntilStopped | cpp/src/harvesters/file.hpp:160-240 | the whole loop: when it stops, the lines handed over are, file by file, the framed lines read plus the flushed partial line, only the first file may start past 0, and it got there by a run of the machine |
| Backlogs.BacklogKeepsNewest | cpp/src/backlog.cpp:10-39 | after any adds and flushes the queue is the newest min(n, max) of the n entries added since the last flush, in order, and the flag holds exactly when 20 size >= 19 max |
| Backlogs.Backlog.AddEntry | cpp/src/backlog.cpp:10-28 | evict-append-flag, and whether an entry was dropped, as the queue specification says |
| Backlogs.Backlog.FlushAll | cpp/src/backlog.cpp:30-37 | returns the whole queue in order and leaves it empty with the flag down |
| Dictionary.AssignKeepsAgreement | cpp/src/column_dict.cpp:15-40 | a lookup or a new id keeps memory injective per column, its ids rising in the table, and memory covering the table, or in step with it, also when persisting fails |
| Dictionary.RestartIsInStep | cpp/src/writer_database.cpp:73-82 | whatever the table gave back, loading the table of an agreeing memory gives an injective memory in step with the table again |
| Dictionary.TextIsReloadedExactlyWhen | cpp/src/writer_database.cpp:283-302 | a persisted text is in memory under its id after a restart if and only if the table gives it back whole and no other persisted text of its column with a greater id as it |
| Dictionary.RestartRebuildsNumberingExactlyWhen | cpp/src/writer_database.cpp:283-302 | a restart rebuilds exactly the persisted numbering if and only if the table gives every persisted text back whole |
| LogTable.KeptWholeExactlyWhen | cpp/src/writer_database.cpp:289-300 | the table gives a text back whole if and only if it holds no NUL and the affinity of the value column leaves it alone |
| Dictionary.ColumnDictionary.GetOrCreate | cpp/src/column_dict.cpp:15-40 | an existing text keeps its id; a new one gets the greatest id plus one and is persisted first, as much of it as the table keeps; a failed persist changes nothing |
| Dictionary.ColumnDictionary.GetValue | cpp/src/column_dict.cpp:42-53 | the text of an id, or an error when no text of the column has it |
| Dictionary.ColumnDictionary.QueryCandidates | cpp/src/column_dict.cpp:55-84 | exactly the ids of the column whose text matches the operator |
| Writer.WriterDatabase.FillRow | cpp/src/writer_database.cpp:114-132 | the column loop: a missing required value skips the entry, compressed values go through the dictionary |
| Writer.WriterDatabase.InsertOne | cpp/src/writer_database.cpp:109-140 | one entry of a batch: its fate, its row id and what the transaction now holds |
| Writer.WriterDatabase.AssignRowId | configs/basic.yaml:28 | the id SQLite assigns, with and without AUTOINCREMENT |
| Writer.WriterDatabase.Insert | cpp/src/writer_database.cpp:85-147 | commits tables, memory and count as the batch specification says, or rolls the tables back and throws, leaving memory as it is; InsertIsSound says what that means |
| Storage.InsertIsSound | cpp/src/writer_database.cpp:106-146 | a commit adds exactly the inserted entries, under new ids that increase in batch order from the next id of the table, each row decodable through memory and persisted in the committed dictionary table; an entry is skipped if and only if it lacks a required value, rejected if and only if SQLite refuses its row, and inserted otherwise; an abort changes no table and leaves memory at most ahead of it; when it happens is AbortsExactlyWhen |
| Aborts.AbortsExactlyWhen | cpp/src/writer_database.cpp:106-146 | a batch with columns to fill is rolled back if and only if BEGIN or COMMIT fails, one of its entries raises, or it brings more new texts for compressed columns than SQLite takes dictionary rows |
| Aborts.RowCosts | cpp/src/column_dict.cpp:15-40 | encoding a row learns exactly the texts of compressed columns that come before a missing required value, each new one at the price of one dictionary row |
| Storage.FatesAreEarned | cpp/src/writer_database.cpp:119-139 | the same for the fates of a batch in progress |
| Storage.FirstIdIsNext | cpp/src/writer_database.cpp:135-137 | the first row of a batch gets the next id of the table the batch began on |
| Storage.CountIsRowsAdded | cpp/src/writer_database.cpp:137-147 | the count a committed Insert returns is the number of rows the table has gained |
| Storage.EncodeRowSound | cpp/src/writer_database.cpp:114-132 | every encoded row stands for its entry, column by column |
| Storage.StoredTextDecodes | cpp/src/writer_database.cpp:126-130 | an integer in a compressed column of a row that decodes is the id of the text given to Insert and of no other |
| Queries.CompressionPreservesQueries | cpp/src/database.cpp:228-260 | for every injective dictionary, every table and every conjunction of comparisons, the query of the encoded table allows the same listings and returns the same total and decoded rows as the query of the original texts |
| Queries.WherePreserved | cpp/src/database.cpp:228-260 | the WHERE clause on the encoded table selects exactly the rows the plain clause selects on the originals, the 1=0 exit included |
| Queries.ConditionPreserved | cpp/src/column_dict.cpp:55-84 | one comparison through candidate ids means the comparison of the texts |
| Queries.NullIsNeverSelected | cpp/src/database.cpp:228-260 | no filter selects a row whose cell is NULL |
| Queries.SubstringOnCompressed | cpp/src/column_dict.cpp:67-68 | ~= on a compressed column selects a text when either of the two strings contains the other |
| Queries.SubstringMeansContainsExactlyWhen | cpp/src/column_dict.cpp:67-68 | on a column with a dictionary ~= selects the rows an uncompressed column would if and only if no stored text is a proper part of the wanted one |
| Values.ComparisonsAreOfOneOrder | cpp/src/column_dict.cpp:65-76 | the six comparisons are those of one total order, numbers by size before texts as in a dictionary, and NULL is on no side of any |
| Values.TextLessIsLexicographic | cpp/src/column_dict.cpp:65-76 | texts are ordered at the first place where they differ, a text before those that go on after it |
| Values.ContainsExactlyWhen | cpp/src/column_dict.cpp:67-68 | containment is equality with some stretch of the text |
| Values.DumpIntReadsBack | cpp/src/writer_database.cpp:126-129 | a number written as text reads back as the number, without a leading zero |
| Values.EqualityFindsValueExactlyWhen | cpp/src/column_dict.cpp:62-63 | a filter for equality with a value finds it in a compressed column if and only if it is no boolean |
| Values.NullFilterMeansTheWord | cpp/src/database.cpp:228-260 | a filter for null asks for the word "null" where it is matched as a text, and selects nothing where it is bound |
| Queries.ReaderDatabase.BuildWhereClause | cpp/src/database.cpp:228-260 | the loop with its validation errors and its early exit builds the specified clause |
| Queries.ReaderDatabase.ReadRow | cpp/src/reader_database.cpp:68-77 | the loop over the fields reports the row as ReportRow says, whose meaning is RowHoldsEveryField |
| Queries.ReaderDatabase.Fetch | cpp/src/reader_database.cpp:23-82 | field check, clause, count or estimate, empty answer and rows answer the query as Query says, whose meaning is QueryAnswers |
| Answers.RowHoldsEveryField | cpp/src/reader_database.cpp:68-77 | a result row holds exactly the fields asked for, each the cell or, for an id of a compressed column, the text that has it; it is an error if and only if some such id has no text |
| Answers.QueryAnswers | cpp/src/reader_database.cpp:23-82 | every query: an error for an unknown field or an invalid filter; otherwise the names asked for, a star standing for every column in order, the number of rows the filters select or the id span without filters, and as result k the row listed at offset + k, as many as the limit and the rest allow; an error if and only if something is to be answered and the limit is negative or some id on the page has no text |
| Answers.PageIsThatListed | cpp/src/reader_database.cpp:55-80 | result k of a page is the answer of the row listed at offset + k, min(limit, rest) of them |
| Answers.FieldsAreAsked | cpp/src/reader_database.cpp:26-32 | a lone star names every column of the catalog in order; anything else names itself and is an error if and only if some name is no column |
| EndToEnd.TableStandsForDumped | cpp/src/writer_database.cpp:125-131 | where every row decodes, the table stands, through the dictionary, for the values of the entries its rows belong to, numbers and booleans of compressed columns as text |
| EndToEnd.OwnersExist | cpp/src/writer_database.cpp:109-140 | every row belongs to an entry, the last one stored under its id |
| EndToEnd.NumbersComeBackAsText | cpp/src/writer_database.cpp:125-131 | a number in a compressed column comes back as text or not at all, so some query tells the table from the original one |
| EndToEnd.UndecodedIsNoticed | cpp/src/reader_database.cpp:68-77 | where some row does not decode, some query errs or reports another text |
| EndToEnd.QueriesAnswerOverOriginals | cpp/src/reader_database.cpp:23-82 | in every run the rows belong to entries; every query answers as over their values with numbers and booleans of compressed columns as text if and only if every row decodes, which holds in runs whose restarts keep the texts of the rows they find; and as over the values handed in if and only if, besides, compressed columns hold only texts and nulls |
| QueryErrors.WhereFailsExactlyWhen | cpp/src/database.cpp:232-241 | the clause is an error if and only if some filter is invalid and no valid filter without candidates comes before it |
| QueryErrors.InvalidFilterIsReportedExactlyWhen | cpp/src/database.cpp:232-241 | with an invalid filter the plain table always errs; the compressed one errs if and only if no filter without candidates comes first, and otherwise answers as if nothing matched |
| QueryErrors.InvalidFilterCanPassUnnoticed | cpp/src/database.cpp:241 | an unknown column behind a text nobody has logged |
| QueryErrors.NegativeLimitFailsExactlyWhen | cpp/src/reader_database.cpp:48-67 | with valid fields and filters a negative limit is an error if and only if some row matches; otherwise the answer is the empty page |
| QueryErrors.NegativeLimitDependsOnTheTable | cpp/src/reader_database.cpp:67 | the same call succeeds on an empty table and fails on one with a row |
| LiveTail.WindowFiltersSelectVisible | cpp/src/handlers/sse.hpp:117-121 | the two id filters select exactly the rows in (pushed, current] |
| LiveTail.SelectedSound | cpp/src/handlers/sse.hpp:122-155 | a read window lies above the cursor, repeats nothing, and is complete or cut at the limit |
| LiveTail.CountedSound | cpp/src/handlers/sse.hpp:122-125 | an empty window keeps the chain of read windows |
| LiveTail.PageSound | cpp/src/handlers/sse.hpp:126 | a page misses a visible row only if it is full |
| LiveTail.ChainCovers | cpp/src/handlers/sse.hpp:133 | every id between start and cursor lies in a window that was read |
| LiveTail.ChainOrdered | cpp/src/handlers/sse.hpp:154 | windows of a session ascend and are disjoint |
| LiveTail.SseHandler.OnTimer | cpp/src/handlers/sse.hpp:95-115 | nothing new, or sooner than the debounce time after the last push, leaves the session; a keep-alive due after 15 seconds is written and ends the session if that fails; otherwise the window (pushed, current] is taken |
| LiveTail.SseHandler.OnCount | cpp/src/handlers/sse.hpp:122-135 | an empty count moves the cursor past the window |
| LiveTail.SseHandler.OnSelect | cpp/src/handlers/sse.hpp:122-135 | an empty result moves the cursor, anything else is written first |
| LiveTail.SseHandler.OnWrite | cpp/src/handlers/sse.hpp:148-156 | a finished write moves the cursor, a failed one ends the session |
| LiveTail.SseHandler.OnQueryError | cpp/src/handlers/sse.hpp:127-130 | a query error leaves the session waiting with its cursor where it was |
| Runs.EveryRunIsSound | cpp/src/writer_database.cpp:106-146 | every interleaving of producers, flush, vacuum, sessions and restarts keeps the pipeline, storage, dictionary and tail invariants |
| Runs.StepKeepsSound | cpp/src/tasks/flush_backlog.hpp:35-67 | each single step keeps those invariants |
| Publishing.EveryRowIsPublished | cpp/src/tasks/flush_backlog.hpp:49-64 | in every run, whenever the flush task polls or holds a batch no row lies above the published id, and whenever it is about to publish none lies above the id it will publish; both are ids that were stored |
| Publishing.RestartPublishesGreatest | cpp/src/api.cpp:64 | a restart publishes the greatest id present, or 0 where there is none |
| Publishing.NewTailSkipsWhatIsThere | cpp/src/handlers/sse.hpp:79-94 | a tail opened while the flush task polls or holds a batch starts at or above every row then present, and none of those rows is ever in one of its windows |
| Publishing.TailAfterRestartSkipsOldRows | cpp/src/api.cpp:64 | so a tail opened right after a restart shows no row that was there before |
| Publishing.FlushHasEndedExactlyWhen | cpp/src/tasks/flush_backlog.hpp:35-67 | in every run the flush task has ended if and only if, since the last restart, it was stopped between two batches or one of its jobs threw, which is computed from memory, the entries and what SQLite refuses |
| Publishing.EntryIsStoredAndPublished | cpp/src/tasks/flush_backlog.hpp:49-64 | nothing failing, an entry that lacks nothing and meets an idle service is stored with the row of its values under an id that is then published |
| Publishing.WokenTailCatchesUp | cpp/src/handlers/sse.hpp:95-157 | nothing failing, a woken tail is afterwards waiting at the published id and has sent, of the rows in between, the first as its limit allows in the order listed |
| Publishing.RowsCountOnceWritten | cpp/src/handlers/sse.hpp:131-156 | no step of any run moves a cursor past a window with rows but the end of that very window's write |
| Publishing.FailedQueryIsRetried | cpp/src/handlers/sse.hpp:127-130 | a failed query changes nothing but that the session waits again, so the next wake-up takes the same window |
| Publishing.HungUpTailIsOver | cpp/src/handlers/sse.hpp:79-157 | a tail whose client hangs up is over at once, with the windows it had finished writing, and stays so |
| Conservation.EveryEntryIsInOnePlace | cpp/src/backlog.cpp:10-37 | every entry handed in has one status, which agrees with the queue, the batch in flight, the table and the vacuumed ids and has been earned: skipped only for a missing required value, stored or rejected only without one, set aside only when there are no columns, evicted only when as many entries as the backlog holds came after it, lost with its batch if and only if the job of its batch failed, lost at exit if and only if a restart found it queued or in hand; with AUTOINCREMENT stored entries have ids increasing in order of arrival |
| Conservation.EveryStatusIsEarned | cpp/src/writer_database.cpp:106-140 | every status in every run has been earned, losses included |
| Conservation.LostExactlyWhen | cpp/src/writer_database.cpp:106-146 | an entry is lost with its batch if and only if it was in a batch whose job failed, which is computed from memory, the entries and what SQLite refuses; and at exit if and only if it was queued or in hand at a restart |
| Decoding.AlwaysDecodesExactlyWhen | cpp/src/writer_database.cpp:73-82 | in a run every row decodes at every moment if and only if at each restart the texts of the rows then present survive |
| Decoding.RestartDecodesExactlyWhen | cpp/src/writer_database.cpp:73-82 | after a restart every row decodes if and only if all texts of the rows survive it, whatever was decodable before |
| Decoding.StepKeepsDecoding | cpp/src/column_dict.cpp:15-53 | no other step, failed batches and vacuum included, makes a row undecodable |
| Decoding.StoredIdsDecodeInRun | cpp/src/column_dict.cpp:15-53 | in a run whose restarts keep texts, each integer in a compressed column decodes to exactly the text that was inserted, and NULL stands for null |
| Survival.TextsOutliveRestartsExactlyWhen | cpp/src/writer_database.cpp:283-302 | for any set of entries producers may hand in: every row decodes at every moment of every run over them if and only if the table gives every text they can store back whole, and no other text they bring to the same column as that one |
| Survival.CutTextIsLost | cpp/src/writer_database.cpp:296-302 | for every text that is stored and not given back whole there is a run that loses it at a restart |
| Survival.ShadowedTextIsLost | cpp/src/writer_database.cpp:283-302 | for every stored text and every other given back as it there is a run in which the first is lost at a restart |
| TailRuns.NothingIsSentTwice | cpp/src/handlers/sse.hpp:117-154 | no session sends the same id twice |
| TailRuns.TailIsCompleteExactlyWhenNotOutrun | cpp/src/handlers/sse.hpp:79-157 | for any kind of id column, every open session has accounted for every entry stored since it opened or above its start, as far as it has read, at every moment, if and only if no insert stores a row while the next row id is one an open session has read past |
| TailRuns.AutoincrementNeverOutruns | configs/basic.yaml:28 | with AUTOINCREMENT that never happens |
| TailRuns.TailIsAccounted | cpp/src/handlers/sse.hpp:79-157 | with AUTOINCREMENT, every entry stored under an id up to pushed that is above the start or was stored since the session opened was sent, vacuumed before its window was read, or cut by the row limit |
| TailRuns.CursorMovesOnlyPastReadWindows | cpp/src/handlers/sse.hpp:88-157 | no step of any run moves a cursor back; it moves only past a window that session has just read |
| TailRuns.OutrunIsIncomplete | cpp/src/handlers/sse.hpp:79-157 | an insert that stores a row when the next id has been read past leaves an entry that session never accounts for |
| TailRuns.StepKeepsComplete | cpp/src/handlers/sse.hpp:79-157 | every other step keeps open sessions complete |
| Counterexamples.PlainKeyCanLoseALiveEntry | README.md:70 | a run of the quick-start schema in which vacuum empties the table, an id is reused and a live tail misses an entry |
| Counterexamples.PlainKeyCanLoseAnEntryBelowTheStart | README.md:70 | a run in which a tail opened on one row never sends an entry that gets the id of the vacuumed row |
| Counterexamples.InsertingAfterAnAbortLosesText | cpp/src/server.cpp:68-74 | why a throwing insert must end the inserting task: a further insert would commit an id no restart can decode |
| Counterexamples.TextTakesOver | cpp/src/writer_database.cpp:283-302 | a text given back as another: after a restart its id is that of the other, and once the other has an id too, of no text |
| Counterexamples.TextsAreLost | cpp/src/writer_database.cpp:29-34 | a text that goes on after a NUL, and one that looks like a number |
| Flushing.LogNotifier.Notify | cpp/src/notifier.hpp:44-49 | publishes the id and cancels exactly the subscribers |
| Flushing.LogNotifier.Unsubscribe | cpp/src/notifier.hpp:39-42 | erases the subscription; WithoutKeepsTheOthers says the others stay |
| Flushing.WithoutKeepsTheOthers | cpp/src/notifier.hpp:39-42 | exactly the erased subscription is gone |
| Flushing.FlushBacklogTask.Drain | cpp/src/tasks/flush_backlog.hpp:50-51 | draining the backlog is the Drain step of the machine |
| Flushing.FlushBacklogTask.InsertJob | cpp/src/tasks/flush_backlog.hpp:55-61 | the job on the write strand is the InsertJob step, exceptions included |
| Flushing.FlushBacklogTask.Publish | cpp/src/tasks/flush_backlog.hpp:64 | publishing is the Publish step |
| Flushing.FlushBacklogTask.AddEntry | cpp/src/backlog.cpp:10-28 | a producer is the AddEntry step |
| Flushing.FlushBacklogTask.RunUntilStopped | cpp/src/tasks/flush_backlog.hpp:35-67 | the loop, with producers, vacuum and sessions in between and any failures: the service stays in a sound state of a run, every entry is in the one place its status says for a reason, and none stays in the task's hands |
| Flushing.FlushBacklogTask.constructor | cpp/src/api.cpp:64 | at startup memory is rebuilt from the tables and the greatest id is published, which RestartPublishesGreatest states without MaxLogId |
| FastCount.EstimateBoundsCount | cpp/src/database.cpp:204-210 | MAX(id)-MIN(id)+1 is never below the row count and is 0 exactly for the empty table |
| FastCount.FastCountIsExact | cpp/src/reader_database.cpp:36-48 | over every run whose deletions cut prefixes, with either kind of id column, the estimate is the row count |
| FastCount.AgeCutIsPrefix | cpp/src/tasks/vacuum.hpp:37-49 | deleting by age cuts a prefix when every row has a timestamp and timestamps never decrease with the id |
| VacuumRuns.VacuumedRunsCountExactly | cpp/src/tasks/vacuum.hpp:125-150 | in every run in which only the two deletions of the vacuum task delete, each a step of its own, over timestamps that never decrease with the id, the fast count is the row count |
| VacuumRuns.PassIsTwoDeletions | cpp/src/tasks/vacuum.hpp:125-150 | a pass is such a deletion by age and then one by size |
| VacuumRuns.PassTakesOldestFirst | cpp/src/tasks/vacuum.hpp:125-150 | a pass that takes a row takes all older ones |
| Vacuum.VacuumCutsPrefixes | cpp/src/tasks/vacuum.hpp:37-49 | both vacuum deletions cut prefixes, the age-based one, with a budget or without, when timestamps never decrease with the id |
| Vacuum.ExcessRemovalIsBounded | cpp/src/tasks/vacuum.hpp:57-83 | size trimming removes an id prefix of at most floor(span (db - target) / db) rows, and with a budget of at most the budget in bytes, the size spread evenly over the id span, however sparse the ids |
| Vacuum.ExcessRemovesOldest | cpp/src/tasks/vacuum.hpp:65-80 | when both bounds are at least 1 the oldest row goes |
| Vacuum.TrimmingHitsTarget | cpp/src/tasks/vacuum.hpp:57-83 | for contiguous rows of one size and no budget the size left is in [target, target + one row) |
| Vacuum.BudgetedTrimmingIsExact | cpp/src/tasks/vacuum.hpp:57-83 | with a budget, of contiguous rows of w bytes that make up the size it removes exactly the oldest min((db - target) / w, budget / w) |
| Vacuum.BudgetedAgeingIsExact | cpp/src/tasks/vacuum.hpp:37-53 | with a budget, age-based deletion removes of such rows exactly the stale ones among the first budget / w |
| Vacuum.StaleRemovalIsBounded | cpp/src/tasks/vacuum.hpp:22-53 | only rows at or past the cutoff go, and with a budget at most the budget in bytes, the size spread evenly over the id span |
| Vacuum.StaleRemovalExactlyWhen | cpp/src/tasks/vacuum.hpp:23-36 | all stale rows within the budget go if and only if there are none, or: with text timestamps only, the least is neither empty nor exactly the cutoff; with integers among them, which are stale for every cutoff, the least integer is below the cutoff as a text |
| Vacuum.StaleRowsCanStay | cpp/src/tasks/vacuum.hpp:24-36 | a table with an empty timestamp, one whose least is the cutoff, and one with an integer timestamp, of which nothing is removed |
| Timestamps.GetMinTimestamp | cpp/src/database.cpp:183-191 | the text of the least timestamp, empty if there is none |
| Timestamps.MinTimestampIsLeast | cpp/src/database.cpp:183-191 | with text timestamps none is below it, and it is one of them unless empty |
| Timestamps.MinIntegerIsLeast | cpp/src/database.cpp:183-191 | with an integer among the timestamps it is the least integer, as a text |
| Vacuum.PassMakesProgress | cpp/src/tasks/vacuum.hpp:125-150 | in incremental mode a pass that changes anything lowers (rows, free pages), and rows go only after the freelist is drained |
| Vacuum.IncrementalPassKeepsBudget | cpp/src/tasks/vacuum.hpp:85-99 | the page pass returns as many free pages as the budget in bytes holds, or all of them where a page is above it, and touches no row |
| Vacuum.VacuumReachesRest | cpp/src/tasks/vacuum.hpp:115-151 | with no ingest, whatever the clock and the freed pages, from some pass on nothing changes any more |
| Vacuum.PassRestsExactlyWhen | cpp/src/tasks/vacuum.hpp:125-150 | in every mode: a pass changes nothing if and only if there are no free pages to return where the mode returns any, age-based deletion has nothing to take, and the size is within the maximum or one of the bounds of the deletion is below 1 |
| VacuumTask.VacuumedDatabase.RemoveStaleLogs | cpp/src/tasks/vacuum.hpp:22-53 | deletes exactly the specified rows |
| VacuumTask.VacuumedDatabase.RemoveExcessiveLogs | cpp/src/tasks/vacuum.hpp:57-83 | deletes exactly the specified id prefix |
| VacuumTask.VacuumedDatabase.IncrementalVacuumPass | cpp/src/tasks/vacuum.hpp:85-99 | returns freelist pages up to the budget; a budget below one page clears the list |
| VacuumTask.VacuumedDatabase.RunPass | cpp/src/tasks/vacuum.hpp:125-150 | the pass: mode, page pass, early return, both deletions, full vacuum |
| UrlForm.DecodeUndoesEncode | cpp/src/utils.hpp:74-94 | url_decode is a left inverse of form encoding for every byte string, in any context |
| UrlForm.EscapesAreRead | cpp/src/utils.hpp:74-94 | a percent sign with two hexadecimal digits in either case is the byte they write, with one digit first that digit, with none nothing |
| UrlForm.FormRoundTrip | cpp/src/handlers/common.hpp:63-77 | parsing an encoded list of pairs gives back exactly those pairs |
| UrlForm.UrlDecode | cpp/src/utils.hpp:74-94 | the index loop, malformed escapes included, computes the specified text |
| UrlForm.ParseQueryString | cpp/src/handlers/common.hpp:63-77 | the shrinking loop collects exactly the pairs of the pieces with an equals sign |
| FilterWire.PrintParseExactlyWhenCarried | cpp/src/handlers/common.hpp:111-126 | parsing the printed filters of a field returns them in order if and only if every value is non-empty, comma-free, does not end in a space, and does not start with = before more text under > or < |
| FilterWire.TokenRoundTrip | cpp/src/handlers/common.hpp:111-126 | the same for one token |
| FilterWire.ParseAcrossComma | cpp/src/handlers/common.hpp:112 | no match reaches across a comma |
| FilterWire.ParsedValuesAreTrimmed | cpp/src/handlers/common.hpp:120-122 | parsed values hold no comma and no trailing space |
| FilterWire.ParseQueryFilters | cpp/src/handlers/common.hpp:111-126 | the match loop finds exactly the specified tokens |
| ClientQueries.SerializeQueryParams | frontend/src/api/client.ts:138-163 | grouping and rendering, in any enumeration order, give the specified parameters |
| ClientQueries.GroupByField | frontend/src/api/client.ts:147-153 | groups hold the filters of their field in order |
| ClientQueries.QueryRoundTrip | frontend/src/api/client.ts:220-227 | whatever the order of the entries, the server receives each key once, reads back every field exactly when its values can be carried, and a limit, offset or fields parameter whose name no filter uses as asked for |
| ClientQueries.PagingArrivesExactlyWhenNoFilterNamesIt | frontend/src/api/client.ts:138-163 | limit and offset arrive, and read back as the numbers asked for, if and only if no filter is on a field of that name |
| ClientQueries.FieldsArriveExactlyWhen | frontend/src/api/client.ts:138-163 | the fields arrive as asked for, a star standing for none named, if and only if no filter is on a field called fields or its expression is that very text |
| ClientQueries.OperatorsAreShared | cpp/src/handlers/common.hpp:111-126 | the operators filter expressions can carry are those queries accept |
| Migrations.RunAllExactlyWhen | cpp/src/writer_database.cpp:241-263 | statements run to a state if and only if there are states from the first to it, each made from the one before by the next statement; they fail if and only if one of them fails in a state the ones before it lead to |
| Migrations.StopsOnlyAtFailure | cpp/src/migrations.cpp:14-31 | the pass stops at a version if and only if its rollout breaks in the schema the pass leaves; where nothing stops it nothing configured stays due |
| Migrations.AppliedExactlyBelowFirstFailure | cpp/src/migrations.cpp:14-31 | after startup the applied versions are the old ones and exactly the configured ones above -1 and below the first failing one, which is not applied |
| Migrations.SchemaIsFoldOfApplied | cpp/src/migrations.cpp:14-31 | the schema is the rollouts of the applied migrations in strictly ascending version order |
| Migrations.RestartAppliesNothing | cpp/src/writer_database.cpp:65-69 | starting again changes nothing |
| Migrations.OneStep | cpp/src/migrations.cpp:19-31 | applying the first due migration leaves the rest of the pass as it was |
| Migrations.MigratedDatabase.ApplyMigration | cpp/src/writer_database.cpp:241-263 | where a statement fails in the state the ones before it lead to, false and schema and versions as they were; otherwise the schema they lead to and the version |
| Migrations.MigratedDatabase.RollbackMigration | cpp/src/writer_database.cpp:265-281 | the same for the removal of the version |
| Migrations.MigrationManager.ApplyPendingMigrations | cpp/src/migrations.cpp:19-31 | one migration per call; a call that applies none leaves what the whole pass would |
| Migrations.MigrationManager.Initialize | cpp/src/writer_database.cpp:65-69 | the startup loop terminates and leaves what one pass over the sorted list would |
| ReadPool.PoolIsPartitioned | cpp/src/reader_database.cpp:191-217 | until Close available and leased connections partition the readers without duplicates, and an acquirer waits if and only if all are leased; afterwards nothing is available |
| ReadPool.NoConnectionIsLeasedTwice | cpp/src/reader_database.cpp:201-217 | no two leases hold the same connection |
| ReadPool.ConnectionsAreServedInTurn | cpp/src/reader_database.cpp:201-217 | until Close connections are handed out in the order they were opened and then given back |
| ReadPool.WokenAcquirerIsServed | cpp/src/reader_database.cpp:201-209 | a woken acquirer goes on waiting if and only if the pool is open and every connection is leased; otherwise it gets one, or the error of a closed pool |
| ReadPool.NothingIsLeasedAfterClose | cpp/src/reader_database.cpp:191-217 | after Close no acquire succeeds and no release adds anything |
| ReadPool.ReadDatabasePool.Acquire | cpp/src/reader_database.cpp:201-209 | takes the connection available longest, or errors when closed |
| ReadPool.ReadDatabasePool.Release | cpp/src/reader_database.cpp:211-217 | puts the connection back unless closed |
| ReadPool.ReadDatabasePool.Close | cpp/src/reader_database.cpp:191-199 | empties the pool once |
| LiveConsole.ConsoleShowsNewestInOrder | frontend/src/hooks/useLiveLogStream.ts:28-35 | in every run in which timestamps follow ids, what a console received over one session ascends strictly in id and its buffer is exactly the newest maxLogs of it |
| LiveConsole.ShowsNewestExactlyWhenPositive | frontend/src/hooks/useLiveLogStream.ts:33 | the buffer holds the newest maxLogs records of every stream if and only if maxLogs is positive; with 0 it keeps everything |
| LiveConsole.LiveLogStream.OnMessage | frontend/src/hooks/useLiveLogStream.ts:28-35 | reverse, append, keep the tail, as specified |
| LiveConsole.LiveLogStream.ClearLogs | frontend/src/hooks/useLiveLogStream.ts:48-51 | clearing empties the buffer |
| LiveConsole.ClearStartsOver | frontend/src/hooks/useLiveLogStream.ts:28-51 | after any messages and clears the buffer is that of the messages since the last clear, the newest maxLogs records of them |

## Left out

- HTTP, sockets, executors, signal handling, configuration loading, command line, metrics, statistics tables and the
  user interface: plumbing around the logic above.
- The SQLite engine: locking, WAL, page allocation (how many pages a deletion frees is a free choice), `LIKE` case and
  wildcard rules, type affinity other than the dictionary's, collation other than byte order.
- JSON text: an entry is a map from column to value, and arrays and objects carry the text they dump to. Floating-point
  values and rounding are not modelled.
- Changing which columns are compressed between two starts on the same file.
- Tailer.TailingIsAccounted: a file identity is one number, so an inode reused by another file while the old one is still
  open does not occur; failing seeks and reads count as empty reads.
- Queries.ReaderDatabase.Fetch: its count and its select see one snapshot, where the program's two statements may see
  two (the live tail's own queries are modelled as two steps); error texts are not compared, only that both sides fail.
- Framing.FileHarvester.ReadAvailable: a stop request or a failed seek is the end of its list of reads; the loop with
  both is TailWorker.Worker.ReadAvailable.
- UrlForm.ParseQueryString: the multimap is a multiset of pairs; its iteration order is not modelled.
- FilterWire.ParseQueryFilters: the library's regular expression engine is replaced by its leftmost, first-alternative
  matching for this one expression.
- ClientQueries.SerializeQueryParams: text is its UTF-8 bytes, numbers are integers, and fields named like members of
  JavaScript's Object.prototype are not modelled.
- Migrations.MigratedDatabase.ApplyMigration: statements act on the schema only; recording the version does not fail, and
  statements that end the transaction themselves are not modelled. The library sort is any ascending permutation.
- The rollback command's lookup of its version and its prompt.
- ReadPool.PoolIsPartitioned: fairness among waiters and the use of a connection after Close are not modelled.
- Dictionary.ColumnDictionary.QueryCandidates: candidates are a set of ids; their order in the clause does not matter.
