# Verified models of four TDLib tools

Dafny models of four self-contained programs of TDLib, with proofs about every input, every interleaving or every
chunking they can meet.

- **The source splitter** (`SplitSource.php`) cuts big source files into parts.
  `SourceLines`, `LineSplitter`, `BlockEnds`, `OutputNesting` and `OutputText` model the line loop: where every line goes,
  where blocks end, how the output nests, and how its text reads back.
  `DisjointSets` models the union-find with path compression and random linking, `GreedyAssignment` and
  `GreedyTightness` the largest-first assignment to files, `FunctionGroups` the way from dependency names to file
  contents, and `SplitSource` the whole.
  `CMakeNames` and `CMakeRoundTrip` model renaming a file, or a list of files, in `CMakeLists.txt` and undoing it.
- **The memory profiler** (`memprof/memprof.cpp`) counts live bytes by call stack.
  `ProbeTable` and `ProbeBounds` model its lock-free hash table under any interleaving of any number of threads,
  `StackTable` the same table run by one thread over arrays, and `AllocationAccounting` malloc, calloc, realloc and free.
- **The queue benchmarks** (`benchmark/bench_queue.cpp`).
  `BufferQueue` models the ring buffer with wrapping indices, one access at a time; `WakeupProtocol` the sleep and wake-up
  handshake of `BufferedFdQueue` with store buffers; `QueueBenchmark` and `QueueBenchmarkOnRings` the request and answer
  protocol, over abstract queues and over ring buffers; `RingBenchmark` the token ring.
- **The TLS probe** (`benchmark/check_tls.cpp`).
  `TlsResponse` is a parser of the whole answer to compare with, `TlsProbe` the incremental parser, `TlsFlight` chunked and
  printed answers, `TlsRefusals` and `TlsFields` which answers are accepted, waited for and refused, `ClientHello` the request, `QuadraticResidue` and `KeyGeneration` the choice of key bytes.

`Basics`, `Counting` and `Modular` hold shared vocabulary and facts about counting and remainders.

Objects and loops of the sources are classes and methods here: the forest of the union-find, the line splitter, the hash
table, the allocator, the ring buffer, the request builder and the response parser. Threads are transition systems whose
steps are the atomic accesses of the code; theorems about them speak of every state of every run. Table sizes, numbers of
threads, capacities, ring sizes and moduli are symbolic.

Where the code does something its comments or callers would not expect, the model follows the code:

- The parser of the server's extensions reads an extension only while more than four bytes are left
  (`benchmark/check_tls.cpp:217`). An answer whose last extension has no data is refused. `TlsFlight.PrintedComesBack` gives
  the exact condition.
- The first record of an answer is looked at only when all of it has arrived (`benchmark/check_tls.cpp:186`), so an answer that
  is already wrong is waited for (`TlsFields.WaitsInVain`), and no message of 40 to 75 or 77 to 80 bytes can be right, but the
  error is about a later field. `TlsFields.WaitsMeans` and `TlsFields.FirstWrongField` give the exact conditions.
- PHP takes the string "0" for false, so the splitter treats a block that consists of a `0` as blank (`SplitSource.php:112`,
  `124`, `130`, `142`). `LineSplitter.Blank` does the same.
- The parts of an output file are joined as text (`SplitSource.php:205`). If the last source line has no line end and is not
  dropped, it becomes one line with the first namespace line after it, and that namespace is not opened: the file closes one
  too many. `OutputText.OutputNestsExactly` gives the exact condition, `SplitSource.MissingLineEnd` a source.
- A source that opens a namespace of an outer level twice puts its functions one level too deep
  (`SplitSource.php:90-96`). `OutputNesting.FunctionKeepsItsNamespaces` gives the exact condition.
- Undoing a split restores `CMakeLists.txt` exactly when it did not list the parts before the split
  (`CMakeNames.UndoRestores`).
- Blocks of 2^31 bytes and more are recorded too small (`memprof/memprof.cpp:222`).
  `AllocationAccounting.UsedIsLiveBytes` and `AllocationAccounting.CounterIsBytes` give the exact conditions, and
  `AllocationAccounting.ReallocKeeps` the one for the bytes realloc copies.
- A call stack can hash to 0, the mark of an empty slot (`memprof/memprof.cpp:156`); it is then counted without taking a
  slot, and its slot can change. `StackTable.ZeroHash` says which stacks do, `StackTable.ZeroHashUnbalances` and
  `StackTable.ZeroHashMoves` what goes wrong. The models take any hash; that a stack keeps its slot holds exactly for the
  others (`StackTable.AllPos`, `ProbeTable.SameHashSamePosition`).
- `QueueBenchmark` decodes connection numbers with a signed shift (`benchmark/bench_queue.cpp:737`), so its theorems are
  about up to 128 connections. `QueueBenchmark.BugReached` shows that they fail for every greater number.

Verify with `dafny verify dfyconfig.toml`.

## Model

| member | source | states |
|---|---|---|
| GreedyAssignment.FirstSmallest | SplitSource.php:199 | finds the first index of a smallest file size |
| GreedyAssignment.Assign | SplitSource.php:196-202 | every set goes to the first of the smallest files at its turn; the final sizes and texts are those of the sets assigned |
| GreedyAssignment.LoadsConserve | SplitSource.php:198-202 | the files together hold exactly what was assigned, for any weights of the sets |
| GreedyAssignment.AllButLastIsSmallest | SplitSource.php:198-202 | a file without its last set is no bigger than any other file ends up |
| GreedyAssignment.BigLastSetFits | SplitSource.php:194-202 | if the last set of a file is more than a third of another assignment's biggest file, the file is no bigger than that one |
| GreedyAssignment.GreedyIsWithinFourThirds | SplitSource.php:194-202 | no file exceeds (4/3 - 1/(3 chunks)) times the biggest file of any other assignment of the same sets |
| GreedyTightness.BoundIsReached | SplitSource.php:194-202 | for every number of files m that bound is attained: two sets of each size from 2m - 1 down to m + 1 and three of size m make a file of size 4m - 1 where 3m for all files is possible |
| DisjointSets.Forest.Find | SplitSource.php:3-8 | returns the root, compresses the path and leaves roots and partition alone; terminates on every forest the operations build |
| DisjointSets.Forest.Union | SplitSource.php:10-21 | merges the two classes and no others, whichever way the coin falls |
| DisjointSets.ChainKeepsRoot | SplitSource.php:178-182 | along a chain of shared names the root never changes once every name has been joined |
| DisjointSets.UnionStaysSound | SplitSource.php:178-182 | joining two functions that share a name keeps every class connected by chains |
| DisjointSets.UnionAll | SplitSource.php:178-182 | after all unions two functions have the same root exactly when a chain of shared names connects them |
| FunctionGroups.CollectDeps | SplitSource.php:152-176 | lists under each effective name exactly the functions that use it, each name once |
| FunctionGroups.UsesAreMatches | SplitSource.php:164-172 | a function uses a name exactly if it was matched and is not parse or store; those count as LogEvent, and only if the file is not generated |
| FunctionGroups.Group | SplitSource.php:152-193 | one set per class of connected functions, with the text of its functions in order; its size is the length of that text, but a function with Td::Td or Td::~Td counts for 1000000 |
| FunctionGroups.CollectSets | SplitSource.php:183-193 | the pass that collects the sets keeps roots and partition while find compresses paths; each set has the text and the size of its functions |
| FunctionGroups.MembersAre | SplitSource.php:185-193 | every function is in the set of its root, once, and in no other set |
| FunctionGroups.SortBySize | SplitSource.php:194 | the same keys, each once, largest set first |
| FunctionGroups.WeightMeasures | SplitSource.php:192 | the sizes of any functions and the lengths of the Td functions among them add up to the length of all their text and 1000000 for each Td function |
| FunctionGroups.FilesMeasure | SplitSource.php:196-202 | the same between the size and the text of every output file; without Td functions the size is the number of characters |
| FunctionGroups.SetsCarryFunctions | SplitSource.php:192-201 | a file is as heavy as the functions in it, counted by set or by function |
| FunctionGroups.FilesAreNearlyBest | SplitSource.php:183-202 | the bound holds against every placement of functions that keeps connected functions together |
| FunctionGroups.SplitFunctions | SplitSource.php:152-202 | every function is in exactly one file, connected functions share a file, file texts are those of their functions, file sizes are the lengths of these texts but for the Td functions, and no such placement does better than by the factor above |
| LineSplitter.SettleMoves | SplitSource.php:100-106 | closing a block moves all its lines, in order, behind what is already at its destination |
| LineSplitter.Splitter.EndBlock | SplitSource.php:131-139 | a block goes to the common part exactly if one of its lines makes it static, else it becomes the next function; texts and places stay in step and nothing stays pending |
| LineSplitter.Splitter.NamespaceLine | SplitSource.php:84-109 | ends the block as the plan says and keeps depth and both namespace texts in step with the lines seen |
| LineSplitter.Splitter.BlockLine | SplitSource.php:121-140 | a line at the target depth joins the block and ends it as the plan says, which BlockEnds.LineFate puts in characters |
| LineSplitter.Splitter.Line | SplitSource.php:83-141 | the line goes where the plan of all lines says, and common part, open block and functions are exactly the lines placed there, in order |
| LineSplitter.SettledStays | SplitSource.php:83-141 | once a line is settled, no later line moves it, for every file and every prefix of it |
| LineSplitter.FunctionsAreBlocks | SplitSource.php:83-141 | for every file the lines of a function are next to each other in the source, apart from dropped lines, and an open block reaches to the end |
| BlockEnds.BlankLooks | SplitSource.php:124 | a text counts as blank exactly if it is white space, perhaps with a single 0 in it |
| BlockEnds.EndsStatementMeans | SplitSource.php:130 | a line counts as a one-line statement exactly if it is a letter, anything without a line end, a semicolon and white space |
| BlockEnds.DepthCounts | SplitSource.php:84-99 | the depth is the number of lines that begin a namespace less the number of lines that end one |
| BlockEnds.InDefineMeans | SplitSource.php:124-127 | for every file, the splitter is in a macro definition exactly if a line of the open block begins with #define and nothing but blank lines comes before it in the block |
| BlockEnds.LineFate | SplitSource.php:83-141 | for every line of every file: a block ends there exactly at a namespace line or, at the target depth, at a line that begins with a brace, at a one-line statement or at a blank line of a macro definition; a block that ends becomes the next function, or common text exactly if one of its lines begins with static or it is a macro definition; other lines are common, or dropped exactly if they begin with #undef and nothing but blank lines is in the block |
| BlockEnds.FunctionEnds | SplitSource.php:100-139 | for every file, the last line of a function begins with a brace or is a one-line statement, unless the next line not dropped is a namespace line |
| LineSplitter.SplitLines | SplitSource.php:73-145 | for every file the places of all lines are those of the plan, each text is the lines placed there, each once and in order, and exactly a tail that is not blank is refused |
| OutputNesting.NamespaceLinesAreCommon | SplitSource.php:100-109 | every namespace line is part of the common text |
| OutputNesting.OpenedMinusClosed | SplitSource.php:90-96 | the namespace lines collected to open outweigh those to close by the smaller of depth and target depth, so they balance in a well-nested source |
| OutputNesting.OutputIsWellNested | SplitSource.php:205 | for a well-nested source, the list of lines an output file is put together from is well nested |
| OutputNesting.FunctionKeepsItsNamespaces | SplitSource.php:90-96 | in a well-nested source, the namespaces around a line of a function are the list of outer levels opened exactly when that list has as many entries as the target depth |
| OutputNesting.OutputEncloses | SplitSource.php:205 | in that list, every function line is in exactly the list of outer levels opened |
| OutputNesting.ReopenedNamespace | SplitSource.php:90-96 | a source that opens a namespace twice, whose function is in one namespace and gets two: the condition can fail |
| SourceLines.LinesOfAre | SplitSource.php:73 | cutting a text after every line end gives lines of which only the last may lack its end, and joining them gives the text |
| SourceLines.ReadBack | SplitSource.php:73-205 | joining such lines and cutting the text again gives the lines |
| OutputText.LastPlace | SplitSource.php:100-119 | in a well-nested source the last line is common, or dropped if it begins with #undef |
| OutputText.OutputIsRead | SplitSource.php:205 | every output file of a well-nested source that is split reads as the lines it was put together from, except that a last source line without its line end, unless dropped, is one line with the first namespace line opened |
| OutputText.OutputNestsExactly | SplitSource.php:205 | the file as read is well nested if and only if the last source line ends in a line end or begins with #undef |
| OutputText.TextEncloses | SplitSource.php:205 | in the file as read, every function line is in the outer levels opened, without the first of them if the last source line lacks its end |
| SplitSource.NamespacesAreKept | SplitSource.php:90-205 | every function line of every output file as read is a line of the source; for a terminated source it is in the same namespaces as there exactly when as many outer levels are opened as the target depth, and for one that is not terminated it is not when that many are opened |
| SplitSource.MissingLineEnd | SplitSource.php:205 | a well-nested source of three lines without a final line end whose output file, read back, is not well nested |
| SplitSource.SplitIntoFiles | SplitSource.php:73-205 | for every source text: refused exactly for a tail that is not blank, left alone exactly for fewer functions than parts, else split into files put together from source lines, each function in one file, connected functions together, the sizes compared being the lengths of the function lines in each file but for the Td functions, nearly as even as any such split; and for a well-nested source each file, read back, has those lines and is well nested if and only if the source is terminated, with each function in its namespaces under the exact condition |
| CMakeNames.FirstReplacement | SplitSource.php:64 | up to the first occurrence the text is unchanged, and there the new names begin |
| CMakeNames.NoneLeft | SplitSource.php:63-66 | after the split the old name occurs nowhere |
| CMakeNames.BackShrinks | SplitSource.php:55-58 | replacing there and back never lengthens the text, shortens it if the new names were there before, and restores it otherwise |
| CMakeNames.DecimalReads | SplitSource.php:28-31 | the number in the name of a part, read as decimal digits, is the number of the part |
| CMakeNames.UndoRestores | SplitSource.php:47-66 | splitting and undoing restores the text exactly when it did not contain the joined names |
| CMakeNames.PartNamesAreDistinct | SplitSource.php:28-45 | the old name and the joined names of every marked base name cannot overlap or contain each other, for any number of parts |
| CMakeNames.UndoRestoresMarked | SplitSource.php:28-66 | the round trip for base names such as those of the repository |
| CMakeRoundTrip.Commute | SplitSource.php:56-64 | replacements of names that are not in each other and do not run into each other can be done in either order, on every text |
| CMakeRoundTrip.AllComeBack | SplitSource.php:338-340 | splitting a list of files and undoing it in the same order restores the text exactly when it contained none of the joined names, for any list of names apart from each other |
| CMakeRoundTrip.ListComesBack | SplitSource.php:328-340 | the same for lists of base names with a common mark, none of which is another with a digit or a dot after it |
| ProbeTable.TakenSlotIsNew | memprof/memprof.cpp:167-172 | a hash other than 0 about to be put into an empty slot is nowhere in the table |
| ProbeTable.TakeKeepsTable | memprof/memprof.cpp:167-172 | a successful swap keeps hashes unique and slots reachable and changes no taken slot |
| ProbeTable.StepIsSafe | memprof/memprof.cpp:150-187 | every atomic step of every thread, for any hash, keeps the table, what searching threads know and all results returned |
| ProbeTable.BehaviorIsSafe | memprof/memprof.cpp:150-187 | in every state of every run, for any hashes, no hash has two slots and every taken slot is reached from its home through taken slots |
| ProbeTable.SlotsNeverChange | memprof/memprof.cpp:150-187 | a slot once taken keeps its hash for the rest of the run |
| ProbeTable.SameHashSamePosition | memprof/memprof.cpp:150-187 | two calls that end at hashes other than 0 return the same position exactly if the hashes are the same |
| ProbeBounds.StepIsBounded | memprof/memprof.cpp:157-172 | every step keeps the bound on the counter and the threads about to count or take a slot, and the taken slots below what is or will be counted |
| ProbeBounds.BehaviorIsBounded | memprof/memprof.cpp:157-172 | with T threads at most N/2 + T + 1 slots are ever taken, for any hashes |
| ProbeBounds.BehaviorConserves | memprof/memprof.cpp:167-172 | in every state of every run the counter is the number of slots taken, less those about to be counted, plus the number of calls for stacks that hash to 0 |
| ProbeBounds.UnknownOnlyWhenFull | memprof/memprof.cpp:157-164 | in every run a call is answered with the slot of the "unknown" stack only after more than half of the table was counted |
| ProbeBounds.SearchIsShort | memprof/memprof.cpp:154-186 | with 5(T + 1) < N no search passes all slots |
| ProbeBounds.NeverAborts | memprof/memprof.cpp:158-159 | with 5(T + 1) < N neither the 70% assert nor the abort on a second wrap-around is reached |
| ProbeBounds.CallsAreShort | memprof/memprof.cpp:150-187 | with 5(T + 1) < N, in every state of every run each call, ended or not, has made at most 16N + 5 atomic steps of its thread and loaded at most 4N hashes, a search given up for the "unknown" stack included |
| ProbeBounds.EveryStepCounts | memprof/memprof.cpp:150-187 | with 5(T + 1) < N a step of a call ends it or brings it nearer its end, and no search loads more than two hashes per slot |
| StackTable.GetHash | memprof/memprof.cpp:128-134 | the 64-bit polynomial in the first six addresses |
| StackTable.HashIsPolynomial | memprof/memprof.cpp:128-134 | the hash is 7 times the factor to the number of addresses, plus each address times the factor to the number of addresses after it, modulo 2^64 |
| StackTable.UnknownHash | memprof/memprof.cpp:161-163 | the "unknown" stack does not hash to the empty mark |
| StackTable.ZeroHash | memprof/memprof.cpp:128-134 | for every stack exactly one sixth address makes the hash zero, whatever the other addresses are |
| StackTable.ZeroHashExists | memprof/memprof.cpp:128-134 | a stack of ordinary addresses that hashes to 0 |
| StackTable.ZeroHashUnbalances | memprof/memprof.cpp:167-172 | a call keeps an exact counter exact if and only if the hash is not 0 or the table is more than half full |
| StackTable.Table.GetPos | memprof/memprof.cpp:150-187 | for any hash: a known one keeps its slot, a new one is answered with the first empty slot from its home up to half full and with the "unknown" slot from then on; the assert holds and the abort is unreachable |
| StackTable.FirstPos | memprof/memprof.cpp:150-187 | the first call on an empty table is answered with the hash modulo the size of the table |
| StackTable.AnswersOnMap | memprof/memprof.cpp:150-187 | a call in terms of a map from hashes to slots: found, added, or answered with the one "unknown" slot |
| StackTable.CallIsFound | memprof/memprof.cpp:150-187 | a call keeps all earlier answers for hashes other than 0 readable from the map, and changes the set of known hashes and the counter as a table without slots would |
| StackTable.AllPos | memprof/memprof.cpp:150-187 | for every sequence of calls, of any hashes: all answers for hashes other than 0 can be read off the final map, so equal hashes get equal slots for good, and known hashes and counter depend on the order of the calls alone |
| StackTable.ZeroHashMoves | memprof/memprof.cpp:150-187 | for every table size, a stack that hashes to 0 is answered with a slot that another stack then takes, and after that with another slot |
| AllocationAccounting.Profiler.MallocWithFrame | memprof/memprof.cpp:208-230 | adds the block, recorded at the slot of its stack, and keeps every counter equal to the sizes recorded in its slot |
| AllocationAccounting.Profiler.Free | memprof/memprof.cpp:245-260 | removes the block and nothing else and keeps the counters in balance, without wrapping while the blocks of its slot are below 2^31 bytes and all together below 2^64; a null pointer does nothing |
| AllocationAccounting.Profiler.Calloc | memprof/memprof.cpp:261-266 | a zeroed block of the product of the sizes modulo 2^64 |
| AllocationAccounting.Profiler.Realloc | memprof/memprof.cpp:267-277 | for all sizes with a number of bytes to copy that is not negative: the new block begins with that many bytes of the old one, which is gone |
| AllocationAccounting.ReallocKeeps | memprof/memprof.cpp:273-274 | all bytes that fit are copied exactly when the smaller size is below 2^31 and the bigger one, cut to 32 bits, is not less |
| AllocationAccounting.Profiler.GetUsedMemorySize | memprof/memprof.cpp:314-318 | the sizes recorded for all live blocks modulo 2^64, which are the live bytes if all blocks are below 2^31 bytes and together below 2^63 |
| AllocationAccounting.SlotsRecordAll | memprof/memprof.cpp:189-196 | the slots together record every live block once |
| AllocationAccounting.CounterCoversBlock | memprof/memprof.cpp:198-204 | while the blocks of a slot are below 2^31 bytes and all blocks together below 2^64, its 64-bit counter is the number of their bytes and at least the size of each, so subtracting one does not wrap |
| AllocationAccounting.CounterIsBytes | memprof/memprof.cpp:198-204 | with less than 2^63 bytes live, the counter of a slot is the number of live bytes allocated from it exactly if none of its blocks has 2^31 bytes or more |
| AllocationAccounting.UsedIsLiveBytes | memprof/memprof.cpp:222 | with less than 2^63 bytes live, the used memory is the number of live bytes exactly if no live block has 2^31 bytes or more |
| BufferQueue.FullMeans | benchmark/bench_queue.cpp:246-260 | the wrapped comparisons and differences are those of the unbounded counts |
| BufferQueue.StepKeeps | benchmark/bench_queue.cpp:262-286 | every access of either thread keeps indices, counts and cells in step |
| BufferQueue.FirstInFirstOut | benchmark/bench_queue.cpp:215-337 | for every interleaving the values got are a prefix of the values put, at most the capacity is in between, and only published values are got |
| BufferQueue.RefinesQueue | benchmark/bench_queue.cpp:262-286 | every access is a step of an unbounded first-in first-out queue, or none |
| BufferQueue.CellsAreSeparate | benchmark/bench_queue.cpp:262-277 | the cells the writer may write and those the reader may read are disjoint |
| BufferQueue.PutFailsWhen | benchmark/bench_queue.cpp:318-328 | "put strong failed" happens exactly with a full capacity of values not yet freed |
| BufferQueue.RingBuffer.PutUnsafe | benchmark/bench_queue.cpp:275-277 | appends the value to the history and writes only the cell and the writer's index |
| BufferQueue.RingBuffer.GetUnsafe | benchmark/bench_queue.cpp:262-264 | returns the value put at its place in the order and moves only the reader's index |
| BufferQueue.RingBuffer.UpdateReader | benchmark/bench_queue.cpp:270-273 | returns how many published values have not been got |
| BufferQueue.RingBuffer.UpdateWriter | benchmark/bench_queue.cpp:283-286 | returns how much room is left given what the reader has freed |
| BufferQueue.RingBuffer.PutNoflush | benchmark/bench_queue.cpp:318-328 | succeeds exactly if fewer values than the capacity have not been freed |
| WakeupProtocol.StepKeeps | benchmark/bench_queue.cpp:352-431 | every step of either thread or store buffer keeps the handshake invariant |
| WakeupProtocol.NoLostWakeup | benchmark/bench_queue.cpp:352-431 | whenever in a run the reader sleeps with count zero and a value it has not taken was flushed, the writer is inside its put and the eventfd is written after at most four more steps, whichever they are; this holds with store buffers |
| WakeupProtocol.WakeupComes | benchmark/bench_queue.cpp:364-371 | while the reader sleeps with a value to take, something can move and every move brings the write to the eventfd one step nearer |
| WakeupProtocol.AwakeReaderSees | benchmark/bench_queue.cpp:400-406 | a reader woken up finds a flushed value that has reached memory and stops waiting |
| WakeupProtocol.NoLostWakeupSequential | benchmark/bench_queue.cpp:352-431 | without store buffers the eventfd is written after at most three more steps |
| QueueBenchmark.DecodeSigned | benchmark/bench_queue.cpp:736-737 | the signed shift tells 128 connections apart and no more, the unsigned one 256 |
| QueueBenchmark.StepKeeps | benchmark/bench_queue.cpp:731-786 | every step of client or server keeps one query of each connection in the system, numbered as both sides expect |
| QueueBenchmark.NoBug | benchmark/bench_queue.cpp:739-745 | no run reaches a "BUG" branch |
| QueueBenchmark.BugReached | benchmark/bench_queue.cpp:736-760 | for every number of connections above 128, and fewer than 2^24 queries, some run reaches the server's "BUG" branch, so NoBug holds exactly up to 128 |
| QueueBenchmark.NoDeadlock | benchmark/bench_queue.cpp:734-783 | if neither thread can move, both have finished |
| QueueBenchmark.RunEnds | benchmark/bench_queue.cpp:731-786 | every run ends after exactly six steps per round and connection, with both queues empty and max(1, queries_n) rounds counted on both sides |
| QueueBenchmark.PutHasRoom | benchmark/bench_queue.cpp:762-779 | when a value is put, fewer values than connections are queued or not yet freed |
| QueueBenchmarkOnRings.GetKeeps | benchmark/bench_queue.cpp:298-316 | taking a value from a ring keeps ring and abstract queue in step, so it is the value the abstract protocol takes |
| QueueBenchmarkOnRings.MoveKeeps | benchmark/bench_queue.cpp:298-333 | every access to a ring keeps the rings in step with the abstract queues |
| QueueBenchmarkOnRings.NeverFails | benchmark/bench_queue.cpp:318-328 | over rings with room for one value per connection no run reaches "put strong failed" or "BUG" |
| QueueBenchmarkOnRings.NeverStuck | benchmark/bench_queue.cpp:303-309 | unless both threads and their last accesses have finished, one of them can do more than spin |
| QueueBenchmarkOnRings.RunEndsOnRings | benchmark/bench_queue.cpp:298-333 | every run over rings makes at most 18 moves per round and connection, and two more, that are not spins; until it has ended it can make another, and at the end both rings were emptied |
| RingBenchmark.ExpectedStep | benchmark/bench_queue.cpp:850-863 | exactly one thread can move, CHECK(cnt == 1) holds, and receipt k is of value n - k by thread k mod QN |
| RingBenchmark.RunIsExpected | benchmark/bench_queue.cpp:850-902 | every run from any start value is that one run |
| RingBenchmark.RunEnds | benchmark/bench_queue.cpp:887-902 | every thread has left once, and the value left unread is -1 exactly for start values of at least QN - 1 |
| TlsResponse.MoreBytes | benchmark/check_tls.cpp:167-257 | more bytes never change an error, nor the extensions once some or a record length were read, and only add record lengths |
| TlsResponse.RecordsSplit | benchmark/check_tls.cpp:234-255 | complete records can be parsed off the front |
| TlsProbe.Probe.ReadLength | benchmark/check_tls.cpp:161-165 | reads two bytes, within the buffer wherever it is called |
| TlsProbe.Probe.Hello | benchmark/check_tls.cpp:190-228 | reports what the reference parser finds wrong with the message, or moves past it with its extensions; TlsRefusals.FailMeans says which bytes that are |
| TlsProbe.Probe.Extensions | benchmark/check_tls.cpp:217-227 | the loop over the extensions does what the recursive parser says, for every list |
| TlsProbe.Probe.Receive | benchmark/check_tls.cpp:167-257 | after every read the parser returns or waits as the reference parser says of all bytes so far; its loop ends |
| TlsFlight.ReadAll | benchmark/check_tls.cpp:157-261 | for every chunking the outcome is the reference parser's on the bytes read, and that on all bytes can only extend it |
| TlsFlight.PrintedComesBack | benchmark/check_tls.cpp:178-256 | a printed answer parses back to its extension types and record lengths exactly when its last extension has data |
| TlsFlight.EmptyExtensionAdded | benchmark/check_tls.cpp:217 | every answer is refused once an extension without data is added at the end |
| TlsFlight.ChunksComeBack | benchmark/check_tls.cpp:235-237 | every chunking of a printed answer gives its extension types and a prefix of its record lengths, all of them if no earlier read ended right before a record |
| TlsFlight.ReadPrinted | benchmark/check_tls.cpp:157-261 | reading a printed answer in any chunks gives its extension types and its first record lengths: all of them if and only if no read but the last ends right before a record |
| TlsRefusals.ExtensionsAre | benchmark/check_tls.cpp:217-227 | every list of bytes is some printed extensions and a rest, and is read as these exactly if nothing is left |
| TlsRefusals.RecordsAre | benchmark/check_tls.cpp:234-255 | every list of bytes is some printed records and a rest that does not begin with a whole record |
| TlsRefusals.HelloTests | benchmark/check_tls.cpp:193-216 | the message is refused by the first of the nine tests, on bytes at fixed places, that it does not pass |
| TlsRefusals.CompleteMeans | benchmark/check_tls.cpp:167-256 | the bytes are accepted exactly if they are a printed answer whose last extension has data, with its extension types and record lengths |
| TlsRefusals.NeedMoreMeans | benchmark/check_tls.cpp:157-255 | more bytes are waited for exactly if the first three bytes, the length, the message or the six bytes after the first record of a printed answer are incomplete, or a record after a printed answer is |
| TlsRefusals.FailMeans | benchmark/check_tls.cpp:178-247 | each of the sixteen errors is reported exactly for the bytes described, in terms of printed answers and of bytes at fixed places |
| TlsRefusals.RefusedForGood | benchmark/check_tls.cpp:167-256 | nothing that is refused is the beginning of a printed answer |
| TlsFields.BeginsMeans | benchmark/check_tls.cpp:178-216 | bytes up to the list of extensions are the beginning of a printed answer exactly if each byte there is fits: a printed answer is built from them |
| TlsFields.FirstWrongField | benchmark/check_tls.cpp:178-247 | for each of the sixteen errors: no printed answer begins as the bytes do up to the end of the field it is about, and one begins as they do before that field exactly if it is the first three bytes or the length, or the length is one that printed messages have |
| TlsFields.WaitsMeans | benchmark/check_tls.cpp:157-255 | bytes that are waited for, up to the list of extensions or with the first record complete, are the beginning of a printed answer exactly if what there is of the field waited for is right |
| TlsFields.WaitsInVain | benchmark/check_tls.cpp:186 | any message that does not begin with 2 is waited for until all of it has arrived, though no printed answer begins so |
| TlsFields.ReadAnswer | benchmark/check_tls.cpp:157-261 | for every chunking, all of this about the bytes read |
| ClientHello.SetupGreases | benchmark/check_tls.cpp:95-105 | all values are GREASE bytes and the pairs differ; value i has the first four bits of random byte i, with one bit changed for the second of an equal pair |
| ClientHello.GreaseIs | benchmark/check_tls.cpp:96-104 | every such value is a GREASE byte, and the second of a pair differs from the first, for any random bytes |
| ClientHello.KindsDiffer | benchmark/check_tls.cpp:121-141 | no extension type occurs twice, given GREASE values as SetupGreases makes them |
| ClientHello.WalkAppend | benchmark/check_tls.cpp:121-145 | a list of extensions that can be walked by its length fields to types and data still can after one more is added, which comes last |
| ClientHello.AllIsMeant | benchmark/check_tls.cpp:121-141 | read by their own length fields, the extensions say: the host name, the groups, the protocols h2 and http/1.1, the signature algorithms, key shares with an entry 0x001d of the 32 key bytes, and versions with 0x0304 |
| ClientHello.Build | benchmark/check_tls.cpp:112-145 | the check passes exactly for host names of up to 216 bytes; then the request has 517 bytes, all length fields agree with it, random value, session id, cipher list, host name and key are in place, and walking the extensions to its end gives types and data that say what AllIsMeant lists |
| ClientHello.Request | benchmark/check_tls.cpp:95-145 | with the GREASE values set up from any random bytes, the request is well formed in this sense for exactly the host names of up to 216 bytes and no extension type occurs twice in it |
| QuadraticResidue.Inverse | benchmark/check_tls.cpp:26-42 | every unit has an inverse modulo a prime |
| QuadraticResidue.PairedProduct | benchmark/check_tls.cpp:34-35 | the product of a set of units that pair up to products a is a power of a |
| QuadraticResidue.Wilson | benchmark/check_tls.cpp:34-35 | the product of all units modulo an odd prime is -1 |
| QuadraticResidue.EulerCriterion | benchmark/check_tls.cpp:26-42 | for every odd prime the number tested is 0, 1 or 2, and it is 2 exactly for the non-zero squares |
| QuadraticResidue.ProductAccepted | benchmark/check_tls.cpp:26-42 | the product of two accepted numbers is accepted |
| KeyGeneration.ExponentIsHalf | benchmark/check_tls.cpp:27-32 | the exponent written in the source is half of the modulus minus one |
| KeyGeneration.CurveValue | benchmark/check_tls.cpp:80-87 | the modular steps compute x^3 + 486662 x^2 + x |
| KeyGeneration.DigitsAre | benchmark/check_tls.cpp:75 | the number read from key bytes is below 256 to their number, and its digit i to base 256 is byte i |
| KeyGeneration.MaskedIs | benchmark/check_tls.cpp:74-75 | clearing the highest bit of the last of 32 bytes takes the number modulo 2^255 |
| KeyGeneration.AddKey | benchmark/check_tls.cpp:68-93 | the key is the first draw for which both x and that value are non-zero squares |

## Left out

- Regular expressions: the dependency names found in a function are an input (`SplitSource.php:155-163`); dropping unneeded includes (`SplitSource.php:207-311`) is not modelled.
- Files and messages: reading, writing and unlinking files, and all output.
- GreedyAssignment.Assign: takes the sets in the order arsort leaves them; FunctionGroups.SortBySize stands for arsort and does not fix the order of equal sizes, which PHP leaves open before version 8.
- CMakeNames.UndoRestoresMarked: is about base names that begin with a word that occurs nowhere else in them and has none of the characters put between and after the names, as "td/" or "$"; other names are covered by CMakeNames.UndoRestores where they meet its condition.
- ProbeTable.Step: leaves out the copy of the call stack into its slot and reading it meanwhile.
- AllocationAccounting.Profiler.Realloc: is for sizes for which the number of bytes to copy, the smaller of the two 32-bit sizes, is not negative; copying a negative number has no defined effect. Running out of memory is not modelled.
- AllocationAccounting.Profiler.MallocWithFrame: the counters are those of one thread; the additions are atomic in the source and commute.
- Walking stack frames, symbol lookup and memalign (`memprof/memprof.cpp:31-118`, `278-281`).
- WakeupProtocol.Do: counts are unbounded and the reader's stores to its own index do not take part; they would only make a buffer longer. Memory models weaker than store buffers are left out.
- VarQueue, SemQueue, EventfdQueue, FdQueue, SemBackoffQueue and SemCheatQueue, one-cell variants of the same protocols; PipeQueue, PollQueue and MpscPollableQueue.
- QueueBenchmark2 and client_run2 (`benchmark/bench_queue.cpp:565-705`, `788-815`), which handle the same messages in batches.
- QueueBenchmarkOnRings.RunEndsOnRings: does not bound how often a thread may spin before the other moves.
- TlsFields.WaitsMeans: does not say which incomplete lists of extensions are the beginning of a printed list.
- TlsProbe.Probe.Receive: clocks, sockets and the three-second limit are outside; reads are an argument.
- KeyGeneration.AddKey: the random draws are an argument, big numbers are integers, and that 2^255 - 19 is prime is a hypothesis.
- The statistics over many probes (`benchmark/check_tls.cpp:267-335`).
- Everything else in the repository: the library itself, its generators, examples and other benchmarks.
