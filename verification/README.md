# trace-analyzer: lock well-formedness checker, in Dafny

This project models the core of trace-analyzer, a checker for lock
well-formedness in program traces. The analyzer reads a trace in one of two
formats:

- a text trace (`.std`), one event per line, e.g. `T6|acq(9)|12`;
- a binary RapidBin trace (`.data`), one 64-bit word per event.

It then folds a per-event lock state machine over the events. The machine
reports four violations:

- acquiring a lock that another thread holds;
- releasing a lock twice;
- releasing a lock another thread holds;
- releasing a lock that was never acquired.

When asked, the analyzer also records lock dependencies and builds a thread
graph from them. It then counts cycles in that graph with a depth-first search.

The modules follow the program's files:

| file | module | models |
|---|---|---|
| common.dfy | `Common` | `Option`, `Result`, the `i64` range |
| tokens.dfy | `Tokens` | the `Token` enum of `src/lexer.rs` |
| lexer.dfy | `Lexer` | longest-match scanning of the token patterns, the `id` callback, `str::parse::<i64>`, `tokenize_source` |
| normalizer.dfy | `Normalizer` | `normalize_tokens` |
| parser.dfy | `Parser` | `Event`, `Operation::new`, `Operand::new`, `Operand::id`, the `parse` grammar |
| stdline.dfy | `StdLine` | one STD line through tokenize, normalize and parse |
| rapidbin.dfy | `RapidBin` | the bit constants and `try_parse_event`, on `bv64` |
| analyzer.dfy | `Analyzer` | `analyze_event`, `locks_of_thread`, the lock dependencies, the STD and RapidBin loops, `analyze_trace` |
| threadgraph.dfy | `ThreadGraph` | the thread-graph block of `analyze_trace`, `add_edge` |
| cyclecheck.dfy | `CycleCheck` | `validate_dependency_graph`, `contains_cycle` |
| scenarios.dfy | `Scenarios` | the analyzer's tests as whole traces; a lock-order inversion and its guarded variant |

Every operation has an independent partner, and lemmas over all inputs connect the two:

- **Lock state machine.** The partner is a table of mutexes (`Analyzer.MutexStep`). The analyzer accepts an event exactly when the mutex table does. An STD trace is accepted exactly when every line reads and the mutex run goes through.
- **Lexer.** The partner is a printer (`Lexer.Show`). Printed separable tokens lex back to themselves.
- **Parser.** The partner is a renderer (`Parser.Render`). The grammar accepts exactly the rendered lines.
- **RapidBin decoder.** The partner reads each field straight off the bytes.
- **Cycle count.** The partner is the graph-theoretic cycle. The count is zero exactly when the graph has no cycle, for every iteration order of the hash maps and sets.

Notes on how the code behaves:

- The code does not report a thread that re-acquires a lock it already holds (src/analyzer.rs:433). It does not report locks still held at the end of a trace, and it does not treat a re-acquire as reentrancy. `Analyzer.Acquire` and `Analyzer.StdVerdict` state this.
- `normalize_tokens` is not idempotent. A retyped operand is not a bare number, so a second pass drops it (`Normalizer.NormalizeNotIdempotent`).
- In the RapidBin decoder, the operation field starts at `OPERATION_BITS_OFFSET`, which is 0. The operand mask is also shifted by that offset. So the thread, operation and operand fields overlap. Two consequences:
  - the low four bits of every decoded thread identifier are the operation code (`RapidBin.ThreadCarriesOperation`);
  - the operand keeps only 20 bits (`RapidBin.TryParseEventBounds`).

  The model decodes exactly as written.
- `analyze_trace` pushes `AnalyzerError::UnsupportedFileExtension` for any extension other than `std` or `data` (src/analyzer.rs:103). `src/error.rs` declares no such variant. The model has it as the seventh error.
- Releasing a lock "removes" it from a dependency entry, but the removal acts on a clone (src/analyzer.rs:458-464). So a release never changes the dependencies.
- Recording a dependency and the lock-order edges comes before the ownership check. So a failing acquisition is recorded too (`Scenarios.InversionRecorded`).

## Model

| member | source | states |
|---|---|---|
| Lexer.ParseI64 | src/lexer.rs:41 | Rust's integer parse of a digit string succeeds exactly when its decimal value fits in an i64, and then yields that value; the empty string never parses |
| Lexer.Id | src/lexer.rs:57-62 | `id` drops the one-letter prefix; on a digit remainder it succeeds exactly when the number fits in an i64; a bare prefix letter never yields an id |
| Lexer.IdDecimal | src/lexer.rs:57-62 | for every prefix letter and natural n, `id` of the printed identifier is Some(n) exactly when n is at most i64::MAX, and None otherwise |
| Lexer.IdQualified | src/lexer.rs:29-30 | a field-qualified memory location such as `V1.2[3]` matches the pattern but its `id` is None |
| Lexer.Lex | src/lexer.rs:5-48 | a successful lex yields no more tokens than characters, and every number a token carries is non-negative, since the patterns admit digits only |
| Lexer.NextTokenShow | src/lexer.rs:8-43 | the scanner matches a printed token whole (longest match: `rel`/`req` beat `r`, digits run to the end) and yields exactly that token |
| Lexer.LexRoundTrip | src/lexer.rs:5-48 | the printed text of any separable token sequence lexes back to exactly that sequence |
| Lexer.LexGlue | src/lexer.rs:46-48 | lexing printed tokens followed by more text gives those tokens in front of whatever the rest lexes to, an error in the rest included |
| Lexer.LexStopsAt | src/lexer.rs:46-48 | a character no pattern matches fails the line with NonAsciiCharacter |
| Lexer.LexUnscannable | src/lexer.rs:83-98 | an unmatched character fails the whole line with NonAsciiCharacter, whatever valid tokens come before it |
| Lexer.LexRawLine | src/lexer.rs:69-81 | every printed raw line (thread identifier, pipe, keyword, parenthesised bare number, pipe, line number) lexes to its eight tokens, the operand still a bare number |
| Lexer.TokenizeSource | src/lexer.rs:45-55 | a lexing error is returned as is; without normalization the lexed tokens are returned unchanged; with it the result is the normalization of the lexed tokens, which is no longer than they are |
| Normalizer.Retype | src/normalizer.rs:9-92 | the keyword decides the operand kind: r/w give a memory location, fork/join a thread, req/acq/rel a lock, each keeping the number |
| Normalizer.OperandOutput | src/normalizer.rs:15-19 | the token two places after a keyword becomes its retyped operand when it is a bare number, and is dropped otherwise |
| Normalizer.NormalizeTokens | src/normalizer.rs:3-98 | the rewrite never makes a line longer |
| Normalizer.NormalizeLength | src/normalizer.rs:9-93 | the output is as long as the input exactly when every keyword, as the rewrite meets it, has a bare number two places after it |
| Normalizer.NormalizeWithoutKeywords | src/normalizer.rs:93 | a line without operation keywords is copied unchanged |
| Normalizer.NormalizeConcat | src/normalizer.rs:7-95 | the rewrite works chunk by chunk: normalizing a concatenation of rewritable parts concatenates their normalizations |
| Normalizer.NormalizeSkipsToken | src/normalizer.rs:13-15 | the token right after a keyword is discarded unseen: replacing it does not change the output |
| Normalizer.NormalizeLine | src/normalizer.rs:9-20 | on a raw line only the bare operand changes, retyped by its keyword; everything else is copied in place |
| Normalizer.NormalizeNotIdempotent | src/normalizer.rs:17-19 | normalizing twice is not normalizing once: the retyped operand of `w(5)` is dropped on a second pass |
| Parser.OperationNew | src/parser.rs:68-82 | `Operation::new` is Some exactly for the codes 0 to 9 |
| Parser.OperationCode | src/parser.rs:68-82 | every operation has a code below 10 that `Operation::new` maps back to it |
| Parser.OperationCodeBijection | src/parser.rs:68-82 | every code `Operation::new` accepts is the code of the operation it returns, so the two are inverse bijections |
| Parser.OperandNew | src/parser.rs:111-122 | Read/Write give a memory location, Acquire/Request/Release a lock, Fork/Join a thread, Begin/End/Branch no operand; the id of an operand-carrying result is the given id |
| Parser.Id | src/parser.rs:124-131 | `Operand::id` is None exactly for the `None` operand |
| Parser.Parse | src/parser.rs:10-33 | an error points at a token index no larger than the input or the eight-token shape; every parsed event can give an Acquire or Release its lock id |
| Parser.Keyword | src/parser.rs:15-22 | the operation rule reads every STD operation's keyword token back as that operation |
| Parser.ParseRender | src/parser.rs:10-27 | parsing the rendered token line of any STD-expressible event gives that event back |
| Parser.RenderParse | src/parser.rs:10-27 | every token sequence the grammar accepts is the rendering of the event parsed from it: the grammar accepts exactly the eight-token shape |
| Parser.ParseTestLine | src/test/parser.rs:4-30 | the eight tokens of the unit test (thread 12, write, memory location 6, line 42) parse to the write of memory location 6 by thread 12 at 42 |
| Parser.ParseDoubleWrite | src/test/parser.rs:32-51 | a doubled `w` is rejected at token 3, where only `[LeftParenthesis]` was expected |
| StdLine.ReadLine | src/analyzer.rs:224-232 | a lexing failure is reported as such; a line that reads gives a printable event whose rendering is exactly the line's (normalized) tokens |
| StdLine.RetypeAgrees | src/parser.rs:111-122 | the operand the normalizer retypes for an operation's keyword is the token of the operand `Operand::new` builds for that operation |
| StdLine.NormalizeRawLine | src/normalizer.rs:3-98 | normalizing the raw line of an event gives the rendered line of the event with the operand `Operand::new` builds |
| StdLine.ReadRawLine | src/analyzer.rs:224-232 | with normalization on, every printed raw line reads as the event `Operand::new` builds from its bare number |
| StdLine.ReadRawLineUnnormalized | src/parser.rs:24-27 | with normalization off, the same raw line fails to parse at token 4, where an identifier operand was expected |
| StdLine.BareOperandRejected | src/parser.rs:10-27 | the operand rule has no alternative for a bare number, so a line reaching one fails at index 4 |
| StdLine.ValidTraceLine | src/parser.rs:151-170 | the valid trace line, printed from thread 6, keyword w, operand 4294967298 and line 59 with the separators between them, reads as thread 6 writing memory location 4294967298 at line 59 |
| Analyzer.RecordDependency | src/analyzer.rs:405-420 | after recording, an entry with the key exists; the entry is appended exactly when no entry had its (thread, lock, held set); no duplicates are ever introduced |
| Analyzer.Acquire | src/analyzer.rs:394-454 | fails exactly when another thread holds the lock, with RepeatedAcquisition(lock, thread, owner, row) and an unchanged table; otherwise the lock becomes held by the thread at this row, the thread's held set gains the lock, and no other entry changes; with dependencies on, the (thread, lock, held set) entry is recorded or already there, even when the acquisition fails; with the lock graph on, every earlier edge is kept and one edge is added from each held lock to the acquired one, and no other edge appears |
| Analyzer.Release | src/analyzer.rs:455-509 | checks run in order: an unknown lock gives ReleasedNonAcquiredLock, an unheld one RepeatedRelease with the stored row as previous, one held by another thread ReleasedNonOwningLock; succeeds exactly when the releasing thread holds the lock, then frees it at this row; no other entry, dependency or edge changes; an error leaves everything unchanged |
| Analyzer.AnalyzeEvent | src/analyzer.rs:385-515 | "held exactly when owned" is kept by every event; an error is a violation and leaves the lock table unchanged; operations other than Acquire and Release change nothing and succeed |
| Analyzer.MutexRefinement | src/analyzer.rs:385-515 | an event is accepted exactly when the mutex reference accepts it, and the holders afterwards are the reference's |
| Analyzer.OthersUnchanged | src/analyzer.rs:443-501 | an accepted event leaves every other thread's held locks as they were |
| Analyzer.AnalyzeEvents | src/analyzer.rs:234-241 | the loop numbers one row per event, keeps the errors already collected, adds at most one violation per event, and keeps the lock table consistent and the dependencies duplicate-free |
| Analyzer.EventsRefinement | src/analyzer.rs:218-242 | the event loop collects no violation exactly when the mutex reference runs through every event, and then both end with the same holders |
| Analyzer.AnalyzeEventsAppend | src/analyzer.rs:218-242 | the loop over a concatenation continues the loop over the first part with the second |
| Analyzer.QuietEvents | src/analyzer.rs:510-514 | events other than Acquire and Release only advance the row |
| Analyzer.FrontEndError | src/analyzer.rs:224-232 | a lexer or parser error is never counted as a lock violation |
| Analyzer.AnalyzeStdLines | src/analyzer.rs:209-243 | the STD loop keeps the collected errors, advances at most one row per line, and keeps the lock table consistent |
| Analyzer.EventsOf | src/analyzer.rs:224-232 | the events of lines that all read are, line for line, the events each line reads as |
| Analyzer.StdLinesAsEvents | src/analyzer.rs:218-242 | an STD trace whose lines all read is analysed as the event loop over its events |
| Analyzer.StdStopsAtFirstError | src/analyzer.rs:218-232 | the first line that does not read ends the trace: its error follows those of the events before it and later lines are not read |
| Analyzer.Decoded | src/analyzer.rs:291-295 | the decoded events of the words are well formed and no more than the words |
| Analyzer.AnalyzeRapidWords | src/analyzer.rs:291-303 | the RapidBin loop advances at most one row per word and keeps the lock table consistent |
| Analyzer.RapidAsEvents | src/analyzer.rs:291-303 | the RapidBin loop is the event loop over the decoded events: a word that does not decode is skipped without using a row |
| Analyzer.AnalyzeRapid | src/analyzer.rs:278-304 | after the 18-byte header, at most one row per whole 8-byte word |
| Analyzer.Analyze | src/analyzer.rs:84-104 | every dispatch on the extension ends with a consistent lock table |
| Analyzer.AnalyzeTrace | src/analyzer.rs:174-178 | an error result carries at least one error; an unsupported extension gives exactly [UnsupportedFileExtension] |
| Analyzer.StdVerdict | src/analyzer.rs:209-243 | an STD trace is accepted exactly when every line reads and its events use each lock as a mutex; locks still held at the end do not matter |
| Analyzer.RapidVerdict | src/analyzer.rs:278-304 | a RapidBin trace is accepted exactly when its decoded events use each lock as a mutex |
| RapidBin.MaskValues | src/analyzer.rs:250-262 | the constants evaluate to thread mask 0x3FF, operation mask 0xF, operand mask 0x3_FFFF_FFFF, location mask 0x7FFF << 48, offsets 0, 0, 14 and 48 |
| RapidBin.Signed | src/analyzer.rs:346 | the two's-complement reading of a word is non-negative exactly when the sign bit is clear, and then equals its unsigned value |
| RapidBin.ShiftRight | src/analyzer.rs:348-351 | the arithmetic shift equals the logical shift on words with a clear sign bit |
| RapidBin.FieldValue | src/analyzer.rs:348-351 | masking with a mask that clears the sign bit and shifting gives the unsigned value of the shifted bits |
| RapidBin.TryParseEvent | src/analyzer.rs:345-370 | a decoded event can give an Acquire or Release its lock id |
| RapidBin.ThreadField | src/analyzer.rs:348 | the decoded thread is the low two bits of byte 6 and all of byte 7 |
| RapidBin.OperationField | src/analyzer.rs:349 | the decoded operation code is the low nibble of byte 7 |
| RapidBin.OperandField | src/analyzer.rs:350 | the decoded operand is bits 14 to 33 of the big-endian word, read off bytes 3 to 6 |
| RapidBin.LocationField | src/analyzer.rs:351 | the decoded location is bits 48 to 62, read off bytes 0 and 1 |
| RapidBin.TryParseEventBytes | src/analyzer.rs:345-370 | decoding fails exactly when the low nibble of the last byte is 10 or more; otherwise every field is the one read off the bytes and the operand kind follows `Operand::new` |
| RapidBin.TryParseEventBounds | src/analyzer.rs:245-262 | every decoded field is non-negative: thread below 2^10, operation code below 10, operand id below 2^20, location below 2^15 |
| RapidBin.ThreadCarriesOperation | src/analyzer.rs:259-261 | because the masks overlap, a decoded thread identifier is congruent to its operation code modulo 16 |
| RapidBin.Words | src/analyzer.rs:289-291 | the byte stream is cut into its whole 8-byte words in order, and a short tail is not read |
| ThreadGraph.AddEdge | src/analyzer.rs:191-193 | `add_edge` adds the one edge and the source node, and keeps every other edge |
| ThreadGraph.AddEdges | src/analyzer.rs:145-146 | adding the children one at a time gives the old edges plus an edge to each child |
| ThreadGraph.ChildrenInAnyOrder | src/analyzer.rs:145-153 | the iteration order of a child set does not change the resulting graph |
| ThreadGraph.BuildEdges | src/analyzer.rs:129-146 | the loop over entries adds an edge a -> b exactly when an entry of thread a and an entry of thread b pass the filter |
| ThreadGraph.ThreadGraphEdges | src/analyzer.rs:129-146 | the thread graph has an edge a -> b exactly when some entry of b is another thread, shares no lock with a's entry, and holds the lock a's entry acquires |
| ThreadGraph.NoSelfLoops | src/analyzer.rs:133 | no thread has an edge to itself |
| CycleCheck.ContainsCycle | src/analyzer.rs:591-617 | a search marks its node and only graph nodes visited, keeps the stack among the visited nodes, and restores the stack when it reports nothing |
| CycleCheck.SearchChildren | src/analyzer.rs:600-612 | the loop over successors only adds visited nodes and restores the stack when it reports nothing |
| CycleCheck.CountCycles | src/analyzer.rs:568-575 | the loop counts at most one cycle per root |
| CycleCheck.ValidateDependencyGraph | src/analyzer.rs:562-578 | the count is at most the number of nodes with successors, and it is zero exactly when the graph has no cycle, for every iteration order of the maps and sets |
| CycleCheck.ContainsCycleSound | src/analyzer.rs:591-617 | when every flagged node reaches the searched node, a reported cycle exists |
| CycleCheck.SearchChildrenSound | src/analyzer.rs:600-612 | a successor with its stack flag set closes a real cycle |
| CycleCheck.CountSound | src/analyzer.rs:566-577 | a positive count from a zero start means the graph has a cycle |
| CycleCheck.Sound | src/analyzer.rs:562-578 | a positive count means the graph has a cycle |
| CycleCheck.ContainsCycleComplete | src/analyzer.rs:591-617 | a search that reports nothing finishes its node; finished nodes have only finished successors and lie on no cycle |
| CycleCheck.SearchChildrenComplete | src/analyzer.rs:600-612 | a successor loop that reports nothing finishes every successor and keeps the finished nodes closed and off every cycle |
| CycleCheck.CountComplete | src/analyzer.rs:566-577 | when nothing is counted, every root ends finished and off every cycle |
| CycleCheck.Complete | src/analyzer.rs:562-578 | a zero count means the graph has no cycle |
| Scenarios.LinesRead | src/analyzer.rs:224-232 | with normalization on, every printed raw line reads, and the lines give the events of the raw events |
| Scenarios.QuietPrefix | src/analyzer.rs:218-242 | lines that neither acquire nor release only shift the rows of the lock lines after them |
| Scenarios.RepeatedAcquisitionTrace | src/analyzer.rs:639-673 | thread 6 then thread 7 acquiring lock 9 gives exactly RepeatedAcquisition(lock 9, thread 7, owner 6, row of the second acquisition) |
| Scenarios.RepeatedReleaseTrace | src/analyzer.rs:675-703 | acquire, release, release by thread 6 gives exactly RepeatedRelease(attempted at the third row, previous the second, lock 9, thread 6) |
| Scenarios.ReleasedNonOwningLockTrace | src/analyzer.rs:705-739 | thread 7 releasing lock 9 held by thread 6 gives exactly ReleasedNonOwningLock(row, lock 9, thread 7, owner 6) |
| Scenarios.ReleasedNonAcquiredLockTrace | src/analyzer.rs:741-773 | thread 7 releasing the never-acquired lock 9 gives exactly ReleasedNonAcquiredLock(row, lock 9, thread 7) |
| Scenarios.InversionRecorded | src/analyzer.rs:398-441 | two threads each taking one lock and asking for the other's get both refusals reported, and both refused acquisitions are still recorded as dependencies |
| Scenarios.InversionDeadlocks | src/analyzer.rs:129-162 | the dependencies of that lock-order inversion give a positive deadlock count, in every iteration order |
| Scenarios.GuardLockPrevents | src/analyzer.rs:129-142 | when both threads also hold a common guard lock, the filter drops every edge and the count is zero |

## Left out

- File opening, `BufReader` streaming, splitting into lines, and I/O errors (src/analyzer.rs:57-66, 218-222). An STD trace is a sequence of lines. A RapidBin trace is a sequence of bytes. The file extension picks one of the two, or neither.
- RapidBin header parsing (src/analyzer.rs:314-335) only logs its values. The model skips its 18 bytes. With fewer bytes the source's `unwrap` panics, which the model states as a precondition.
- The GraphViz text, directory creation and file writes (src/analyzer.rs:73-81, 106-121, 124-171). Only the edge set and the thread graph are modelled.
- The deadlock count is only logged (src/analyzer.rs:160-162). The model computes it, but it does not enter the verdict of `analyze_trace`.
- `log` macros, src/main.rs, src/arguments.rs, and the `Display` and `Error` plumbing of src/error.rs. `ReadFromUnwrittenMemory` is never produced.
- src/token.rs is not part of this model. It is an uncompiled duplicate of the `Token` enum.
- The logos and peg engines are not modelled; the model states the token patterns and the grammar directly:
  - The lexer takes the longest match at each position.
  - The grammar reports the failing token index and the expected patterns there.
  - The expected-pattern strings are the pattern texts.
- Hash iteration order is a parameter wherever the source iterates a hash map or set:
  - the lock table behind `locks_of_thread` is given as a set comprehension;
  - the child sets, and the key order of `validate_dependency_graph`, are given as sequences;
  - the results are proved for every such order.
- Row numbers are unbounded naturals. The `usize` wrap-around after 2^64 events is not modelled.
- `tokenize_source` and the STD loop panic when a keyword is followed by fewer than two tokens. The model states this as a precondition (`Normalizer.Normalizable`) and does not model the panic.
- The test traces the analyzer's tests read are not available. `Scenarios` rebuilds each one from its expected error: the lock lines the error requires, after any number of lines that neither acquire nor release. With five such lines, the rows are the ones the tests expect.
- Lexer.Lex: the lexer's success is stated through the printer round trip (`Lexer.LexRoundTrip`). The model gives no separate characterization of the exact set of lines that lex.
