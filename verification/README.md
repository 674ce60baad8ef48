# A verified model of the jelly-bench write benchmark

jelly-bench drives one of three blob stores (jelly, SQLite, RocksDB) with writes at a steady rate.
This project models the benchmark loop, the random blob cache, the command line, the two
synchronous storage nodes and the jelly request pool in Dafny, and proves what each part and
their compositions guarantee. `dafny verify dfyconfig.toml` checks everything.

How the model is laid out:

- `Machine`, `Config`, `Journal`: 32- and 64-bit numbers with explicit wrap-around, the settings, and
  histories of backend calls.
- `LastWriter`: the reference meaning of every store, a register per key that a write replaces exactly
  when its sequence number is larger; winners, merging, order independence.
- `Encoding`, `RocksDBStore`, `RocksDBNode`: the two column families as maps from bytes to bytes,
  changed one put at a time; interruption between any two puts, replay, torn writes, and which of the
  states a synced log is known to hold.
- `SQLiteNode`: the upsert with its NOT NULL constraint, a connection with a working and a committed
  table and an open-transaction bit, and the group commit on top. A failing statement is an outcome
  (`ok == false`) after which the process is gone.
- `Jelly`: requests as heap objects owned by slots, a node that holds raw pointers and acts whenever it
  likes under an arbitrary schedule, the swap-remove scan, and the teardown order. A node may promise to
  complete every request within a number of its steps, its patience; one with patience 0 promises nothing.
- `Pacing`: the write accumulator over an arbitrary clock, in exact millionths of a write. `Rounding`:
  the same accumulator with a bounded error in every addition and subtraction. `Doubles`: the same in
  IEEE 754 binary64, whose rounding supplies those bounds, and its distance from exact arithmetic.
- `BlobCache`: the random engine as an arbitrary stream of numbers, and the blobs drawn from it.
- `Traces`: the backend calls of a run as a function of clock, choices and timer answers. `Backends`:
  the backend classes and the interface they share. `Benchmark`: the loop itself.
- `Compositions`: what follows for whole runs. `CommandLine`: the parser.

The two storage nodes and the three backends carry a ghost record of the calls they have received, and
their invariants tie their fields to it: the tables, column families and byte counts are functions of
that record, and the jelly request vector is what the node's schedule leaves of it. A theorem about such
an object therefore holds after every interleaving of calls, and the benchmark loop is specified by the
exact history it produces.

Where comments and code could be read differently, the model follows the code. The upsert of the
SQLite node writes NULL for a stale sequence number into a column that forbids it: a stale write is
not skipped, its statement fails and the check on the result ends the process. Preconditions are those
of the C++ code: a non-empty cache, a positive key count, `1 <= min_blob_size <= max_blob_size` (the
loop takes the address of a blob's first byte), and a steady clock with sleeps of at least a
millisecond. Sequence numbers, the write counter, the counted microseconds, the byte count and the
reaping index all wrap as in the original; a result that needs an absence of wrapping says so.

The documentation gives a command line that chooses the backend and the rate. The program parses it and
then sets backend, compression and rate itself (`src/Main.cpp:40-44`), so these options have no effect;
`CommandLine.DocumentedSettings` and `Compositions.DocumentedRun` follow the code.

The replay results about the RocksDB node are about the order in which `Set` writes: the original has
no path that reopens an existing database, since its constructor removes the directory.

## Model

| member | source | states |
|---|---|---|
| LastWriter.RunIsFirstMaximum | src/RocksDBBlobNode.cpp:141-166 | after any writes, exactly the written keys are present, each holding the first submitted write with the largest sequence number of its key |
| LastWriter.RunNeverRegresses | src/RocksDBBlobNode.cpp:151-152 | later writes never lower a stored sequence number nor remove a key |
| LastWriter.MergeOfRuns | src/RocksDBBlobNode.cpp:131-167 | running a concatenation is the keywise maximum of the two runs, ties to the first |
| LastWriter.MergeAssociative | src/RocksDBBlobNode.cpp:131-167 | that merge is associative |
| LastWriter.MergeIdempotent | src/RocksDBBlobNode.cpp:131-167 | that merge is idempotent |
| LastWriter.SameElementsSameRun | src/RocksDBBlobNode.cpp:131-167 | lists with the same writes, whatever their order and repetition, leave the same registers when top writes agree |
| LastWriter.OrderIndependence | src/RocksDBBlobNode.cpp:131-167 | all permutations of a list leave the same registers if and only if the top writes of each key are the same write |
| LastWriter.DistinctWritesCommute | src/RocksDBBlobNode.cpp:131-167 | permutations of a list that never reuses a sequence number for a key leave the same registers |
| Encoding.DecodeEncode | src/RocksDBBlobNode.cpp:137-150 | a number put as four bytes is read back unchanged |
| Encoding.EncodeDecode | src/RocksDBBlobNode.cpp:148-150 | every four bytes are the encoding of the number read from them |
| Encoding.EncodeInjective | src/RocksDBBlobNode.cpp:137-138 | distinct keys never share their bytes |
| Encoding.ByteWeighs | src/RocksDBBlobNode.cpp:137-150 | the first byte weighs least: raising byte j by one raises the number by 256 to the j |
| RocksDBStore.CompleteRunRefinesRegister | src/RocksDBBlobNode.cpp:131-167 | complete `Set` calls leave both column families with the same keys and with the last-writer-wins contents |
| RocksDBStore.StateShape | src/RocksDBBlobNode.cpp:156-166 | every durable state is a complete prefix of the calls, or that followed by the blob put of the next call alone |
| RocksDBStore.SurvivorShape | src/RocksDBBlobNode.cpp:156-173 | every durable state not before the end of the first calls that were flushed holds at least those, completely |
| RocksDBStore.ReplayConverges | src/RocksDBBlobNode.cpp:141-166 | stopping at any put and repeating the list from its beginning ends where the uninterrupted run ends, from any initial maps and with ties allowed |
| RocksDBStore.InterruptedReplaysConverge | src/RocksDBBlobNode.cpp:141-166 | the same after any number of interrupted attempts |
| RocksDBStore.SeqFirstLosesTheBlob | src/RocksDBBlobNode.cpp:156-166 | with the two puts exchanged, a write torn between them on any state leaves its key's blob as it was through every replay of writes up to its number |
| RocksDBStore.SeqFirstWitness | src/RocksDBBlobNode.cpp:156-166 | an instance: the exchanged order leaves a key without a blob that the actual order recovers |
| RocksDBStore.TornRunsKeepSeqBehindBlob | src/RocksDBBlobNode.cpp:156-166 | in every run of complete and torn calls, a recorded sequence number has a blob and is at most the one the blob was written with |
| RocksDBStore.DurableStatesAreStepRuns | src/RocksDBBlobNode.cpp:131-167 | every state between puts is the end of such a run, so the above holds at every put |
| RocksDBStore.RecordedAreCompleted | src/RocksDBBlobNode.cpp:141-166 | after any history of complete and torn calls, the recorded numbers are exactly those of the completed calls alone |
| RocksDBStore.FreshIff | src/RocksDBBlobNode.cpp:141-153 | a write passes the read guard exactly when it exceeds every number completed for its key in the history |
| RocksDBStore.StoredIsLastLanding | src/RocksDBBlobNode.cpp:141-160 | the stored blob is that of the last call, torn or not, which exceeded every number completed for its key before it |
| RocksDBStore.StaleOverwriteWindow | src/RocksDBBlobNode.cpp:151-159 | after any history, the next call takes a stored blob back to an older write exactly when it exceeds every completed number but not that of the last call that landed; other keys are untouched |
| RocksDBStore.KeepsGreatestIff | src/RocksDBBlobNode.cpp:141-166 | after any history, a key holds a write with the greatest number ever submitted for it if and only if that number was completed or nothing landed after its tear |
| RocksDBStore.TearLetsStaleWriteWin | src/RocksDBBlobNode.cpp:141-166 | a two-call history in which it does not |
| RocksDBStore.UntornKeysAreExact | src/RocksDBBlobNode.cpp:156-166 | a key whose writes were never torn has its exact number recorded |
| RocksDBStore.ReplayRepairsTornRuns | src/RocksDBBlobNode.cpp:141-166 | replaying a journal restores the store after every history of complete and torn writes from it, if and only if the top writes of each key agree |
| RocksDBNode.RocksDBBlobNode.Set | src/RocksDBBlobNode.cpp:130-167 | on the byte maps, passes through exactly the durable states of the specification and ends in the specified store |
| RocksDBNode.RocksDBBlobNode.GetSeq | src/RocksDBBlobNode.cpp:141-150 | the recorded bytes have length four and decode to the recorded number |
| RocksDBNode.RocksDBBlobNode.PutBlob | src/RocksDBBlobNode.cpp:156-160 | one put is one new durable state, in which the bytes still represent the store |
| RocksDBNode.RocksDBBlobNode.PutSeq | src/RocksDBBlobNode.cpp:162-166 | likewise for the sequence number family |
| RocksDBNode.RocksDBBlobNode.Flush | src/RocksDBBlobNode.cpp:169-173 | afterwards the log on disk holds every put so far; the store is unchanged |
| RocksDBNode.RocksDBBlobNode.HoldsWinners | src/RocksDBBlobNode.cpp:131-167 | both byte families have the same keys, holding blob and number of the winning write of each key |
| RocksDBNode.RocksDBBlobNode.RestartRestores | src/RocksDBBlobNode.cpp:131-167 | from whichever durable state the object ever passed through, replaying its calls restores its present state |
| SQLiteNode.AcceptedIffStrict | src/SQLiteBlobNode.cpp:27-45 | a list runs without a failing statement if and only if sequence numbers strictly increase per key, and then the table equals the last-writer-wins registers and the plain last writes |
| SQLiteNode.StrictIffLastSupersedes | src/SQLiteBlobNode.cpp:43-45 | one more write keeps a list strict exactly when its number exceeds the stored one |
| SQLiteNode.AcceptedPrefix | src/SQLiteBlobNode.cpp:117-120 | prefixes of accepted lists are accepted |
| SQLiteNode.AcceptedListsAreShort | src/SQLiteBlobNode.cpp:43-45 | an accepted list has at most 2^32 writes per key |
| SQLiteNode.FirstRejection | src/SQLiteBlobNode.cpp:117-120 | a rejected list has a first failing statement, where the table still equals the registers, which ignore the same write |
| SQLiteNode.SQLiteBlobNode.Set | src/SQLiteBlobNode.cpp:86-126 | fails exactly on a stale number and then changes no row; BEGIN is never issued inside a transaction (the invariant keeps the count of misused statements at zero); committed data is untouched |
| SQLiteNode.SQLiteBlobNode.Flush | src/SQLiteBlobNode.cpp:128-139 | never fails, never issues COMMIT outside a transaction, commits exactly the writes so far, and leaves no transaction open |
| SQLiteNode.Database.Begin | src/SQLiteBlobNode.cpp:96-97 | BEGIN fails exactly inside a transaction, and every failure is counted |
| SQLiteNode.Database.Commit | src/SQLiteBlobNode.cpp:134-135 | COMMIT fails exactly outside a transaction, which is counted, and publishes the working table |
| SQLiteNode.Database.StepUpsert | src/SQLiteBlobNode.cpp:117-120 | a failing statement leaves no trace; one outside a transaction commits at once |
| Jelly.ScanPollsEachOnce | src/Write/Jelly/JellyWrite.cpp:107-125 | for every list of answers, the scan asks about every element exactly once |
| Jelly.ScanTakesAnswersInOrder | src/Write/Jelly/JellyWrite.cpp:114 | the t-th poll takes the t-th answer, as many polls as there were elements |
| Jelly.ScanLeavesTheIncomplete | src/Write/Jelly/JellyWrite.cpp:107-125 | the scan leaves exactly the elements whose one poll answered false |
| Jelly.AnswersPartitionPolls | src/Write/Jelly/JellyWrite.cpp:114-123 | reaped and kept requests together are the polled ones |
| Jelly.SwapRemoveMultiset | src/Write/Jelly/JellyWrite.cpp:116-120 | the cyclic remove takes out the one element it is asked to |
| Jelly.ScanOrder | src/Write/Jelly/JellyWrite.cpp:107-125 | up to the first completed element the scan polls the slots in order, and next the element that was in the last slot |
| Jelly.AllCompletedReapedFromTheBack | src/Write/Jelly/JellyWrite.cpp:107-125 | if all are completed, the first is polled first and then the others from the last to the second, and none is left |
| Jelly.CyclicRemove | src/Write/Jelly/JellyWrite.cpp:116-123 | on owning slots: deletes exactly the request in slot i, moves the one in the last slot there and no other, leaves no empty slot, and the unsigned index is back at i after wrapping below zero |
| Jelly.OwnedOrDeletedOnce | src/Write/Jelly/JellyWrite.cpp:88-120 | a request ever created has one owner and was never deleted, or has none and was deleted once |
| Jelly.JellyWrite.Set | src/Write/Jelly/JellyWrite.cpp:69-91 | the new request is owned by one slot and lent to the node; ownership and accounting are kept |
| Jelly.JellyWrite.PushBack | src/Write/Jelly/JellyWrite.cpp:86-88 | between lending the pointer and storing the owner, the local variable is the owner |
| Jelly.JellyWrite.GiveUpSlot | src/Write/Jelly/JellyWrite.cpp:116-122 | a slot may be given up only when its request is completed and the node does not hold it; the request in the last slot takes its place and no other moves |
| Jelly.JellyWrite.PollSlot | src/Write/Jelly/JellyWrite.cpp:112-123 | one poll, with the node acting before it: the slot is given up exactly when the request is completed, the poll is recorded with that answer, and a request not completed is one the node has had too few steps for |
| Jelly.JellyWrite.UpdateRequests | src/Write/Jelly/JellyWrite.cpp:107-125 | the loop is the scan for the answers the requests gave when polled; it deletes exactly the requests answered true, keeps none that was completed at entry, and none that the node has had its promised number of steps for |
| Jelly.JellyWrite.Housekeep | src/Write/Jelly/JellyWrite.cpp:39-66 | every housekeeping event is served with one step of the node |
| Jelly.JellyWrite.Update | src/Write/Jelly/JellyWrite.cpp:29-67 | reaps only when the timer has expired, and then keeps no request completed before; the node makes one step per housekeeping event, and per reaping one more and one per request; once there are as many events as the node has patience, every request is completed |
| Jelly.JellyWrite.DropLast | src/Write/Jelly/JellyWrite.h:33 | one deletion of the vector's teardown, allowed only for a request the node does not hold |
| Jelly.JellyWrite.Destroy | src/Write/Jelly/JellyWrite.cpp:22-25 | the node is gone first, so that every deletion is allowed; in the end every request was deleted exactly once |
| Jelly.JellyWrite.NoDanglingRequest | src/Write/Jelly/JellyWrite.cpp:80-125 | after any calls, and between any two polls of a reaping, a pointer the node holds is to an undeleted request with one owner, and a deleted request is nowhere |
| Jelly.JellyWrite.PoolIsBounded | src/Write/Jelly/JellyWrite.cpp:29-37 | the request vector is at least as long as the list of writes since the last reaping and never longer than that of all writes; with any node that completes each request within d of its steps, never longer than the list of writes since the d-th last reaping, hence exact for d = 1 |
| CommandLine.AcceptedIffAlternating | src/Config.h:13-45 | parsing succeeds if and only if the list has even length and alternates flags with values |
| CommandLine.ParseAppend | src/Config.h:13-45 | parsing a concatenation is parsing its parts in sequence |
| CommandLine.LaterWins | src/Config.h:25-42 | an option given again overrides exactly its own setting |
| CommandLine.LastNumbersDecide | src/Config.h:25-40 | after an accepted list, each numeric setting of type `size_t` is the last value the list gives it, or what it was before |
| CommandLine.RoundTrip | src/Config.h:25-58 | printing and parsing restores a configuration if and only if no string looks like a flag and jelly has no reserved name |
| CommandLine.JellyGetsNoReservedName | src/Config.h:25-42 | a name the benchmark uses itself never reaches the jelly configuration |
| CommandLine.AtoiOfDecimal | src/Config.h:26-40 | numbers in `int` range survive printing and `atoi` |
| CommandLine.AtoiOfText | src/Config.h:26-40 | what `atoi` reads of any text of blanks, sign, digits and a rest: the number the digits spell, zero without digits, and nothing of the rest |
| CommandLine.EveryStringIsAText | src/Config.h:26-40 | every string is such a text |
| CommandLine.DefaultsSpelledOut | src/Config.h:25-58 | on any settings, giving the eight defaults in literals under their literal names leaves the defaults |
| CommandLine.DocumentedCommandLine | README.md:46-49 | what the documented command line is parsed to, in literals, for every backend and rate |
| CommandLine.DocumentedSettings | src/Main.cpp:37-44 | what the program then runs with, in literals: jelly at 10000 writes per second, whatever backend and rate were given |
| CommandLine.ConfigObject.Override | src/Main.cpp:40-44 | the assignments made after parsing |
| CommandLine.FieldOfName | src/Config.h:25-39 | no two settings share a name |
| CommandLine.ConfigObject.InitFromCommandLine | src/Config.h:8-46 | the index-skipping loop accepts what the specification accepts and leaves the fields it describes |
| CommandLine.ConfigObject.SetOption | src/Config.h:25-42 | the chain of comparisons assigns the one named field |
| CommandLine.ConfigObject.constructor | src/Config.h:48-58 | the default settings |
| BlobCache.BlobsAreBounded | src/RandomBlobCache.cpp:13-25 | every cached blob has a size within the configured bounds and bytes below 64, and there are as many as configured |
| BlobCache.BytesAreLowBits | src/RandomBlobCache.cpp:21 | a byte is the low six bits of its random word |
| BlobCache.EveryCacheIsDrawn | src/RandomBlobCache.cpp:13-25 | blobs of any sizes and bytes in range are drawn from the stream that has, for each in turn, its size and then its bytes |
| BlobCache.DrawnIffInRange | src/RandomBlobCache.cpp:13-25 | the caches that some stream yields are exactly the lists of blobs in range |
| BlobCache.RandomBlobCache.constructor | src/RandomBlobCache.cpp:9-26 | the nested loops draw sizes and bytes in order from the random stream |
| BlobCache.RandomBlobCache.GetRandomBlob | src/RandomBlobCache.cpp:33-41 | one draw over all places selects one cached blob |
| Pacing.DrainConserves | src/Write/WriteBenchmark.cpp:49-59 | the inner loop ends, conserves pending plus issued, and leaves pending above minus one and at most zero |
| Pacing.PendingIsTheRest | src/Write/WriteBenchmark.cpp:45-59 | after every iteration, pending plus issued is the counted time times the rate |
| Pacing.IssuedIsCeiling | src/Write/WriteBenchmark.cpp:45-59 | the writes issued are that product rounded up |
| Pacing.PacedOverAnyWindow | src/Write/WriteBenchmark.cpp:45-59 | between the ends of any two iterations the writes are off the rate by strictly less than one |
| Pacing.CountedFallsShort | src/Write/WriteBenchmark.cpp:41-46 | for every clock that does not run backwards, counted time is at most the elapsed time not lost to 32-bit wrapping, and short of it by less than a microsecond per iteration |
| Pacing.NothingLostIff | src/Write/WriteBenchmark.cpp:45 | nothing is lost to wrapping exactly when every gap is below 2^32 microseconds |
| Pacing.ShortfallIsOnePerMille | src/Write/WriteBenchmark.cpp:41-77 | with the sleep, the rest of the shortfall is below a thousandth of elapsed time plus a microsecond |
| Pacing.PacedInRealTime | src/Write/WriteBenchmark.cpp:41-77 | hence a two-sided bound on the writes in real time, with the time lost to wrapping spelled out |
| Pacing.RunsEnd | src/Write/WriteBenchmark.cpp:28-77 | an iteration that starts before the end time is among the first 1000 per second |
| Pacing.FinishedRunIsNotTooFast | src/Write/WriteBenchmark.cpp:28-77 | a run that lasts for given seconds makes at most the rate times these seconds of writes |
| Pacing.FinishedRunIsNotTooSlow | src/Write/WriteBenchmark.cpp:28-77 | and misses of them at most those due within the largest gap between readings and a thousandth of its duration, plus a microsecond and what was lost to wrapping |
| Pacing.SmallGapsLoseNothing | src/Write/WriteBenchmark.cpp:45 | nothing is lost to wrapping if that gap is below 2^32 microseconds |
| Rounding.LoopDrift | src/Write/WriteBenchmark.cpp:49-56 | with rounding errors, the inner loop ends at most one write and one error below zero and drifts one error per subtraction |
| Rounding.LoopIsShort | src/Write/WriteBenchmark.cpp:49-56 | with errors below one, the inner loop ends: at any time, finished or not, the subtractions it has made are bounded by the amount it started with |
| Rounding.LoopIsFinishedTurns | src/Write/WriteBenchmark.cpp:49-56 | a finished inner loop is exactly one under way whose amount is no longer positive |
| Rounding.RoundedPacing | src/Write/WriteBenchmark.cpp:45-56 | over whole runs, rounding carries the number of writes away from the rate by no more than the sum of the errors |
| Doubles.AmountError | src/Write/WriteBenchmark.cpp:47 | converting the rate, dividing and multiplying in binary64 is off by at most five units of 2^-53 |
| Doubles.RunHasSmallErrors | src/Write/WriteBenchmark.cpp:45-56 | in binary64 every operation stays within seven units of the largest amount, and pending stays within [-1, 0] |
| Doubles.PacedInDoubles | src/Write/WriteBenchmark.cpp:45-56 | hence the number of writes in binary64 against rate times counted time |
| Doubles.LoopEndsInDoubles | src/Write/WriteBenchmark.cpp:49-56 | in binary64, an inner loop that starts with fewer than 3 * 2^50 writes ends: at any time, finished or not, its subtractions are bounded by what it started with |
| Doubles.StandsStillIff | src/Write/WriteBenchmark.cpp:56 | subtracting one in binary64 may leave a positive amount as it is if and only if it is at least 2^53 + 1 |
| Doubles.LargeLoopsMayTurnForEver | src/Write/WriteBenchmark.cpp:49-56 | from there on an inner loop may make any number of turns, so that some bound is needed |
| Doubles.EveryInnerLoopEnds | src/Write/WriteBenchmark.cpp:45-56 | for every rate below 2^31 and every counted time, the inner loop of an iteration ends: at any time it has made at most one more than twice as many turns as writes were pending |
| Doubles.NoRunHangs | src/Write/WriteBenchmark.cpp:28-59 | hence no run at such a rate hangs in its next iteration, whatever its clock |
| Doubles.OffByAtMostOne | src/Write/WriteBenchmark.cpp:45-59 | on any clock, binary64 and exact arithmetic issue the same number of writes give or take one, until all rounding errors could add up to one |
| Rounding.ExactRunIsPacer | src/Write/WriteBenchmark.cpp:45-59 | without rounding errors this accumulator is the exact one |
| Traces.TraceWrites | src/Write/WriteBenchmark.cpp:39-61 | however iterations spread them, the writes of a run are the numbered stream |
| Traces.StreamIsAccepted | src/Write/WriteBenchmark.cpp:51-58 | the first 2^32 writes are accepted by SQLite, for any choice of keys and blobs |
| Backends.RocksDBWrite.Set | src/Write/RocksDB/RocksDBWrite.cpp:34-44 | the node and the byte count follow the history, stale writes counted too |
| Backends.RocksDBWrite.Update | src/Write/RocksDB/RocksDBWrite.cpp:27-32 | syncs the log exactly when the timer has expired, so that it always holds the writes before the last such call |
| Backends.SQLiteWrite.Set | src/Write/SQLite/SQLiteWrite.cpp:32-42 | likewise; refused exactly when the history extended by the write is not accepted |
| Backends.SQLiteWrite.Update | src/Write/SQLite/SQLiteWrite.cpp:25-30 | commits exactly when the timer has expired |
| Backends.SameCallsSameData | src/SQLiteBlobNode.cpp:40-45 | a SQLite and a RocksDB backend with the same history hold the same data, byte for byte, namely the last writes |
| Backends.Backend.Set | src/Write/IWriteBackend.h:29-33 | the shared interface: one more call in the history, or one of the two ways to end the process |
| Backends.Backend.Update | src/Write/Jelly/JellyWrite.cpp:29-67 | one more call in the history, and a jelly node has served all events |
| Backends.Backend.BytesAreAccounted | src/Write/IWriteBackend.h:37-42 | the reported byte count is that of the history, on every backend |
| Journal.TotalBytesBounds | src/Write/SQLite/SQLiteWrite.cpp:39-41 | bounds on blob sizes bound the bytes of any list of writes |
| Benchmark.SmallWordsAreTheirKeys | src/Write/WriteBenchmark.cpp:54 | a random word below the key count is its own key |
| Benchmark.SameKeyIff | src/Write/WriteBenchmark.cpp:54 | two words give the same key if and only if they are a multiple of the key count apart |
| Benchmark.EveryChoiceIsDrawn | src/Write/WriteBenchmark.cpp:51-54 | for every pool of blobs in range, and every blob of it and key in range for each write, the stream that has the pool and then blob and key of each write makes a run write exactly those |
| Benchmark.EveryDrawIsAChoice | src/Write/WriteBenchmark.cpp:51-54 | and every stream makes a run write some such choice |
| Benchmark.DrawWrite | src/Write/WriteBenchmark.cpp:51-54 | the drawn blob and key, with the current number, are the next write of the run |
| Benchmark.IssuePending | src/Write/WriteBenchmark.cpp:49-59 | the inner loop issues exactly the writes that draining the accumulator calls for |
| Benchmark.Iterate | src/Write/WriteBenchmark.cpp:45-61 | one iteration adds the passed time, issues what is due and updates the backend, a jelly node serving all its events: the next stretch of the trace |
| Benchmark.WriteBenchmark | src/Write/WriteBenchmark.cpp:12-78 | a finished run stops at the first reading that is at least the configured seconds after the start, within 1000 iterations per second; it makes exactly the calls of the trace, with all housekeeping events served; a process end by a refused write comes after at least 2^32 writes |
| Compositions.NodesAgreeThroughout | src/Write/WriteBenchmark.cpp:49-59 | at every point of a run of at most 2^32 writes, SQLite has accepted all of them, and both nodes hold the last write to each key |
| Compositions.LongRunsAcceptedIff | src/Write/WriteBenchmark.cpp:51-58 | a run of any length is accepted if and only if the wrapped numbers grow along the writes to each key |
| Compositions.SingleKeyRunsStopAtTheWrap | src/Write/WriteBenchmark.cpp:51-58 | with one key, accepted if and only if there are at most 2^32 writes |
| Compositions.NoRunOutlastsItsKeys | src/Write/WriteBenchmark.cpp:51-58 | for every key count, no run of more than 2^32 writes per key is accepted |
| Compositions.DefaultsAreRunnable | src/Config.h:48-58 | the default settings meet the preconditions of the benchmark |
| Compositions.RunnableCommandLines | src/Config.h:13-58 | an accepted argument list meets them if and only if the last minimum and maximum blob sizes it gives, or the defaults, are positive and in order, and the last cache and key counts are not zero |
| Compositions.FinishedRunMeetsItsRate | src/Write/WriteBenchmark.cpp:28-77 | a finished run makes at most rate times seconds writes, and misses of them at most those due within the largest gap between readings and a thousandth of its duration, plus a microsecond and what was lost to wrapping, which is nothing for gaps below 2^32 microseconds |
| Compositions.RunWithoutArguments | src/Main.cpp:37-52 | without arguments, and with readings at most 2 ms apart, a finished run takes ten seconds and makes between 99881 and 100000 writes |
| Compositions.DocumentedRun | README.md:46-49 | likewise for the documented command line, whatever backend and rate it gives: two minutes and between 1198781 and 1200000 writes |
| Compositions.FlushedAreThoseIssuedByLastFlush | src/Write/SQLite/SQLiteWrite.cpp:25-30 | at any point, the flushed writes are those issued by the last flushing iteration |
| Compositions.FlushedBeforeAreThoseIssued | src/Write/SQLite/SQLiteWrite.cpp:25-30 | the same for the d-th last flush, for every d |
| Compositions.UncommittedBatchIsBounded | src/Write/WriteBenchmark.cpp:45-61 | at any point, the writes not yet committed are fewer than one more than the rate times the time counted since the last flush |
| Compositions.UncommittedBatchBetweenIterations | src/Write/WriteBenchmark.cpp:45-61 | the same at the end of an iteration |
| Compositions.CrashKeepsWholeIterations | src/SQLiteBlobNode.cpp:128-139 | a crash at any point leaves exactly the writes issued by the last flushing iteration |
| Compositions.PowerLossKeepsFlushedWrites | src/Write/RocksDB/RocksDBWrite.cpp:27-32 | whichever put after the last sync a loss of power takes effect at, RocksDB keeps the writes up to some point not before those issued by the last flushing iteration, all complete but for the number of at most one, and loses fewer than one more than the rate times the time counted since |
| Compositions.RequestPoolIsPaced | src/Write/Jelly/JellyWrite.cpp:29-37 | at any point of a run over any node that completes each request within d of its steps, the jelly vector holds at least the writes since the last reaping and at most those since the d-th last one, fewer than one more than the rate times the time counted since |
| Compositions.WritesAreBounded | src/Write/WriteBenchmark.cpp:53-54 | every write has a key below the key count and a blob within the configured sizes, bytes below 64 |
| Compositions.BytesStayWithinBounds | src/Write/WriteBenchmark.cpp:53-58 | at any point, the byte count that every backend reports is the sum of submitted sizes and lies between writes times min and writes times max |

## Left out

- The benchmark loop in `Benchmark` uses exact millionths of a write; its distance from binary64 is what `Doubles` bounds.
- Rounding.RoundedPacing: takes the error of single operations as a parameter; `Doubles` supplies it for binary64 rounded to nearest, without overflow.
- CommandLine.RoundTrip: numbers of 2^31 and more, for which the C standard leaves `atoi` undefined; the parser takes the library's answer for them as a parameter.
- Compositions.BytesStayWithinBounds: runs that submit 2^64 bytes or more; the wrapped byte count of longer runs is still that of the history.
- The random engine is an arbitrary stream and each draw takes one number from it; how many engine words a library distribution consumes, and its quality, are not modelled. Which values can be drawn is: all those in range.
- NULL data pointers and blobs longer than an `int` in the SQLite binding; a blob is a value of known length.
- The internals of RocksDB, SQLite and jelly: compaction, log files (RocksDB's log is one sequence of puts of which a loss of power keeps a prefix that contains all synced ones), the housekeeping advisor's choices. Jelly's node is any node that stops using a request no later than it completes it.
- What jelly stores for a request; only the ownership and accounting side of its backend is modelled.
- Opening and configuring the databases, compression choice, and deleting old files.
- The construction of the chosen backend in `src/Main.cpp`.
- Process and disk statistics, their timers, and all printing.
- Concurrent use of one node: each backend is called by the one benchmark thread.
