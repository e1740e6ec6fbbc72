# A Dafny model of the chroutine engine and of the libraries under it

The engine runs chroutines (stackful coroutines) on kernel threads, talks to Redis through hiredis and logs through
an asynchronous queue. This project models the parts of it whose correctness rests on state and arithmetic, and
proves what they promise.

| Files | What they model |
|---|---|
| `Bytes.dfy`, `Decimal.dfy` | bytes, and decimal text against 64-bit numbers |
| `Resp.dfy`, `Wire.dfy`, `ReaderStack.dfy`, `Reader.dfy` | the RESP2 reply reader: a recursive-descent reference parser, the grammar stated apart from it, the pushdown machine on values, and the reader object with its buffer, nine-slot stack and reply trees |
| `Format.dfy`, `FormatPieces.dfy`, `RoundTrip.dfy` | command formatting, what a format string means, and the formatter and the reader together |
| `AsyncReplies.dfy`, `AsyncEndings.dfy`, `Async.dfy`, `AsyncStream.dfy` | the callback queue of an asynchronous connection: on values, how it ends, as linked objects, and fed by a byte stream |
| `Schedule.dfy`, `Fairness.dfy`, `FatherSon.dfy`, `Resting.dfy`, `Migration.dfy`, `Scenarios.dfy` | one scheduler as a state machine, what holds over its runs, and moving chroutines between threads |
| `Threads.dfy`, `Engine.dfy` | the scheduler, chroutine and reporter objects, and the thread monitor |
| `Dictionary.dfy` | the chained hash table and its iterator |
| `Sds.dfy`, `SdsRepr.dfy`, `ReprText.dfy` | length-prefixed strings, splitting and joining, quoting and unquoting |
| `LogQueue.dfy`, `ThreadPool.dfy` | the log queue and its worker pool |
| `Channel.dfy` | the channel between chroutines |
| `Fp.dfy`, `Grisu.dfy`, `GrisuMeaning.dfy` | 64-bit significand arithmetic and shortest-digit generation |

Code that changes state in place is modelled by classes and methods with loops. Each such method is proved against a
function on values (`Abs()`, `Contents()`, `M`, or a function of its arguments), and the properties over whole runs
are lemmas about those functions.

Some files state what such a function means without it: `Wire` the grammar that the parser reads, `FormatPieces` what a
format string contributes, `ReprText` quoting and splitting in characters, `Resting` how long a chroutine rests,
`AsyncEndings` what ends a connection, and `GrisuMeaning` the digits in products and powers.

## How to read the models

- **Reader.** `Resp.ParseAll` is the specification: a recursive-descent parser for RESP2 (Redis serialization
  protocol specification, parts "Arrays" and "Bulk strings") with the depth limit and the strict number syntax of
  the code. Three behaviours follow the code rather than the protocol: the two bytes after a bulk payload are
  skipped without being looked at; an array at the eighth nesting level is refused as soon as its type byte has been
  read; and a read that fails leaves an error that stays. Lengths are C `int`s, so all lemmas about the reader object ask for
  fewer than 2^31 buffered bytes. Allocation succeeds.
  A bulk string's end is computed from a signed sum that overflows for the two largest lengths; the model reads it in
  two's complement, and the test made with it is then right for every length (`Reader.RedisReader.BulkEnd`).
- **Formatter.** `redisFormatSdsCommandArgv` prints lengths through `%u`, which reads 32 bits, keeps the position of
  those lines in an `int`, asserts the total length and returns it as an `int`. `Format.SdsReturnsExactly` says exactly
  when the command goes out with its length, `Format.SdsBytesExact` exactly when the bytes are those of the command, and
  `Format.SdsWrongUnnoticed` gives an argument for which neither holds, the assertion does not notice, and the value
  returned is positive. A directive other than `%s`, `%b` and `%%` is reported as `OtherDirective`.
- **Asynchronous connection.** What the callbacks do to their own connection is an arbitrary function of how many
  callbacks ran before (`User`), which covers every behaviour of a user; what the event loop does is an arbitrary list
  of events. A reply that nothing waits for and that is not an error fails the run-time assertion of the code;
  such a run ends in a state marked `aborted`, and `AsyncReplies.AbortsExactly` says when.
- **Scheduler.** A switch of context is the end of a step; clock readings and new ids are parameters; the roving
  iterator is a list node or the end, and stays the end when a node is appended. `operator[]` on the chroutine map
  enters null records for unknown ids, which the model keeps as `phantoms`. A chroutine that ends finds its father
  through the record that `entry` holds, even after it has been taken off the map, so the model keeps that father beside
  the running id. `Schedule.StepInv` shows the only step that breaks the structure: waking a father out of a wait for the
  very chroutine that is running. `Schedule.StepSane` shows what is left then, and the theorems over whole runs
  (`Fairness`, `FatherSon`) hold in such runs too. `Scenarios` gives one in which the father's reporter is written twice,
  and one in which an older son's end is reported as that of a younger one; `FatherSon.WaitForSonInRuns` shows that a
  wait for a son keeps its promise if and only if nothing like these two happens: no son of the father ends but the one
  it waits for, and that one only while it is on the schedule.
- **Migration** happens while the blocked thread is inside its running chroutine.
- **Dictionary.** Chains are sequences, one per bucket of an array; keys are compared by equality; the 32-bit hash
  function is a parameter. A bucket index is returned as a C `int` and the iterator reads the number of buckets as one,
  so `Dictionary.Dict.Add`, `Replace` and `Dictionary.VisitAll` say what happens from 2^31 buckets on, and exactly when
  they do what is asked. An access at a negative index or through a null pointer has the status `Stray`. The number of
  buckets stays below LONG_MAX, as a table of pointers does not fit into memory beyond that.
- **Log queue.** Each critical section is one step and a call that would block is not enabled; any interleaving of
  producers, workers and the destructor is a run. No producer posts once the destructor runs.
- **Channel.** On one kernel thread. The refill at the end of `read` re-enters `write` while the lock is still held;
  the model runs the body of `write` there with the lock held, and claims safety only, never that the call returns.
- **Digit generation.** Every value that the code keeps in 64 bits has the type `u64`, so that verification excludes a
  wrap. The table of powers has ten entries; a stop after more than nine fractional digits reads past it, which the model
  reports as `NoPower`. `Grisu.GenDigits` says exactly when that happens, and `Grisu.PastTheTable` gives an input.

## Model

| member | source | states |
|---|---|---|
| `Decimal.String2ll` | vendors/hiredis/read.c:157-218 | the conversion accepts a text exactly when `Int64Of` does, with the unsigned accumulator never wrapping |
| `Decimal.Int64OfText` | vendors/hiredis/read.c:157-218 | the accepted texts are exactly the canonical decimal texts of the 64-bit signed values, and give that value |
| `Decimal.TextRoundTrip` | vendors/hiredis/sds.c:429-458 | printing and strict reading of 64-bit signed numbers are inverse to each other, both ways |
| `Decimal.LlToStr` | vendors/hiredis/sds.c:429-458 | digits produced backwards and reversed in place are the decimal text of the value, zero-terminated, within the 21-byte buffer |
| `Decimal.CountDigits` | vendors/hiredis/hiredis.c:191-201 | the count of digits is the length of the decimal text |
| `Resp.ParseAllSplit` | vendors/hiredis/read.c:550-598 | the replies of a stream are those of its front, then those of the unread rest of the front followed by the new bytes |
| `Resp.ParseItemExtend` | vendors/hiredis/read.c:441-488 | a reply or an error that has been decided is not changed by bytes that arrive later |
| `Wire.SpeltReads` | vendors/hiredis/read.c:441-488 | every spelling of a reply in the RESP2 grammar, nested up to the depth limit, reads as that reply, whatever bytes follow |
| `Wire.ReadsExactly` | vendors/hiredis/read.c:441-488 | a reply is read off a stream and leaves the rest if and only if the stream is a spelling of that reply and then that rest; the grammar names the type bytes +, -, :, $ and *, and both nils |
| `Wire.BadTypeExactly` | vendors/hiredis/read.c:445-470 | an item is refused for its first byte if and only if that is none of the five |
| `Wire.Refused` | vendors/hiredis/read.c:260-439 | which error a bad number, length, count or depth gives |
| `Wire.StreamIs` | vendors/hiredis/read.c:550-598 | spelt replies one after another are all the replies of their stream, and nothing is left |
| `ReaderStack.FillMeaning` | vendors/hiredis/read.c:235-258 | delivering a value into the innermost open array, and closing those it completes, continues the reference parse with the same outcome |
| `ReaderStack.StepMeaning` | vendors/hiredis/read.c:260-488 | one item processed by the pushdown machine leaves the meaning of the whole stack and the remaining bytes unchanged, whatever bytes follow |
| `ReaderStack.StepAdvances` | vendors/hiredis/read.c:260-488 | every item processed with success consumes bytes, so draining ends |
| `Reader.RedisReader.SeekNewline` | vendors/hiredis/read.c:119-143 | the position found is the first CR LF pair, and none is found only if there is none |
| `Reader.RedisReader.MoveToNextTask` | vendors/hiredis/read.c:235-258 | the stack index stays in -1..8, its assertions hold, and the new stack is the one that the machine's `Fill` gives |
| `Reader.RedisReader.ProcessLineItem` | vendors/hiredis/read.c:260-299 | a status, error or integer line moves the reader as the machine says, object tree included |
| `Reader.RedisReader.ProcessBulkItem` | vendors/hiredis/read.c:301-363 | the same for bulk strings |
| `Reader.RedisReader.BulkEnd` | vendors/hiredis/read.c:336-337 | the signed sum of length and two, added as unsigned, is the exact end of the item for every 64-bit length, in two's complement |
| `Reader.RedisReader.BulkEndOverflows` | vendors/hiredis/read.c:336 | that signed sum overflows exactly for the two largest lengths |
| `Reader.RedisReader.ProcessMultiBulkItem` | vendors/hiredis/read.c:365-439 | the same for arrays: nil, empty, a new level with an array parent, or the depth error |
| `Reader.RedisReader.CreateObject` | vendors/hiredis/hiredis.c:100-187 | the new object has the given kind and content and goes into exactly the empty element slot of its parent |
| `Reader.RedisReader.Feed` | vendors/hiredis/read.c:518-548 | bytes are appended to what has arrived and nothing else changes |
| `Reader.RedisReader.GetReply` | vendors/hiredis/read.c:550-598 | the reply tree, the need for more bytes or the error is exactly the reference parser's outcome on the bytes since the last reply |
| `Reader.RedisReader.Drain` | vendors/hiredis/read.c:550-598 | taking replies until none is complete gives all the replies of the bytes so far, and leaves the unread rest |
| `Reader.Session` | vendors/hiredis/read.c:518-598 | feeding a stream in any chunks and draining after each gives the replies and the terminal error of the reference parser on the whole stream |
| `Format.TotalLength` | vendors/hiredis/hiredis.c:534-539 | the precomputed length is the length of the encoded command |
| `Format.FormatCommandArgv` | vendors/hiredis/hiredis.c:524-560 | the bytes written are the encoded command, as many as precomputed, and a terminating zero |
| `Format.FormatSdsCommandArgv` | vendors/hiredis/hiredis.c:465-513 | what goes out, with 32-bit lengths, an int position and the assertion; it is the command and its length if and only if the command has at most INT_MAX bytes |
| `Format.SdsReturnsExactly` | vendors/hiredis/hiredis.c:465-513 | the command is sent and its length returned if and only if that length is an int |
| `Format.SdsBytesExact` | vendors/hiredis/sds.c:579-670 | whatever is returned, the bytes are those of the command if and only if all arguments are shorter than 2^32 bytes and all length lines end within INT_MAX bytes |
| `Format.SdsWrongUnnoticed` | vendors/hiredis/hiredis.c:498-512 | an argument of 5794967296 bytes passes the assertion, is sent wrongly, and 1500000019 is returned |
| `Format.FormatCommand` | vendors/hiredis/hiredis.c:208-448 | for literals, %s, %b and %% the result is the encoding of the words of the format; any other directive is reported |
| `Format.ScanIsWords` | vendors/hiredis/hiredis.c:222-387 | collecting bytes and cutting at unquoted spaces gives the words at the bounds computed from the items alone |
| `Format.ArgumentsFollowFormat` | vendors/hiredis/hiredis.c:222-415 | the number of arguments and the format items each one spans depend on the format only: no byte of a value splits or merges arguments |
| `FormatPieces.WrittenMeans` | vendors/hiredis/hiredis.c:222-387 | a format that spells characters, %%, %s and %b means just these: blanks between arguments, a percent sign, and the values in order, whole |
| `FormatPieces.PercentElsewhere` | vendors/hiredis/hiredis.c:226-262 | a percent sign at the end of a format is itself, and before another character it is a directive that is reported |
| `FormatPieces.RunFirst` | vendors/hiredis/hiredis.c:222-415 | what stands between blanks, or before the end, is one argument: the concatenation of what its items contribute |
| `FormatPieces.BlankFirst` | vendors/hiredis/hiredis.c:226-239 | blanks before an argument do not matter |
| `Format.CommandsRead` | vendors/hiredis/hiredis.c:524-560 | the encodings of any list of commands parse back to one array of bulk strings per command, in order, with no byte left over |
| `RoundTrip.SendAll` | vendors/hiredis/hiredis.c:524-560 | commands formatted one after another give the concatenated encodings |
| `RoundTrip.Exchange` | vendors/hiredis/read.c:301-439 | formatted commands received in any chunks come back as one array per command, in order, argument for argument, without error |
| `RoundTrip.ReceiveReplies` | vendors/hiredis/read.c:518-598 | spelt replies received in any chunks come back as objects of their kinds with their contents, in order and without error |
| `AsyncReplies.EveryCallbackOnce` | vendors/hiredis/async.c:228-364 | over every run: callbacks run exactly once per settled command, in issue order, with their own reply or null at teardown; the context is freed at most once, and then every command has had its call |
| `AsyncReplies.OwedInOrder` | vendors/hiredis/async.c:228-274 | when no callback is null, the k-th call is that of the k-th command with the k-th reply, if it came |
| `AsyncReplies.TeardownSettles` | vendors/hiredis/async.c:276-330 | a teardown, whatever its callbacks do, ends with nothing waiting, one release of the context and no reply used twice |
| `AsyncReplies.ProcessKeeps` | vendors/hiredis/async.c:426-504 | reading replies keeps the accounts: each goes to the oldest waiting command, also when callbacks issue commands, disconnect or free |
| `AsyncReplies.AbortsExactly` | vendors/hiredis/async.c:449-485 | the assertion on an unmatched reply fails if and only if, with no command waiting, the next reply read is not an error |
| `AsyncReplies.NoMoreThanWaiting` | vendors/hiredis/async.c:449-475 | it cannot fail while no more replies are read than commands wait |
| `AsyncStream.CallbacksFollowStream` | vendors/hiredis/async.c:426-504 | for bytes arriving in any chunks between any other events, the k-th callback gets the k-th reply of the whole stream, and all replies are handed out while the connection lives |
| `AsyncReplies.CleanDisconnect` | vendors/hiredis/async.c:353-364 | a disconnecting connection with everything written is freed by one reply per waiting command, each command getting its own unless a callback frees first |
| `AsyncEndings.DisconnectExactly` | vendors/hiredis/async.c:353-364 | a disconnect from outside a callback releases the connection if and only if nothing waits, and runs no callback in either case |
| `AsyncEndings.DisconnectAwaitsReplies` | vendors/hiredis/async.c:353-364 | with replies outstanding, the connection is released once all is written and each waiting command has its own reply, unless a callback frees it before |
| `AsyncEndings.ReleasedExactly` | vendors/hiredis/async.c:276-364 | which event outside reading releases a connection, and that all waiting commands are then told null, in order |
| `AsyncEndings.TeardownTells` | vendors/hiredis/async.c:276-319 | a teardown gives each waiting callback one null call, in order, and releases the context once, whatever the callbacks do |
| `AsyncEndings.FreedInCallback` | vendors/hiredis/async.c:484-493 | a context freed by the callback of the oldest command is released right after it; otherwise reading goes on |
| `AsyncEndings.CallbackIssues` | vendors/hiredis/async.c:598-676 | of the commands that a callback issues, exactly those before it disconnects or frees are queued and written, in order |
| `AsyncEndings.NobodyToldNull` | vendors/hiredis/async.c:353-364 | over every run without failures and without a free, whenever anyone disconnects: no callback gets null, and the connection is released only when every command has its reply |
| `AsyncReplies.WrittenInOrder` | vendors/hiredis/async.c:598-676 | once written out, the bytes sent read as one array per accepted command, in the order in which the callbacks wait |
| `Async.CallbackList.Push` | vendors/hiredis/async.c:228-248 | the linked list gains the command at its end, and head, tail and links stay consistent |
| `Async.CallbackList.Shift` | vendors/hiredis/async.c:250-264 | the first command leaves the list; the tail is cleared with the last one |
| `Async.AsyncContext.FreeContext` | vendors/hiredis/async.c:276-319 | runs every waiting callback with null, in order, and releases the context once |
| `Async.AsyncContext.AsyncDisconnect` | vendors/hiredis/async.c:359-364 | inside a callback or with replies outstanding only the flag changes; otherwise the context is released and no callback runs |
| `Async.AsyncContext.ProcessCallbacks` | vendors/hiredis/async.c:426-504 | the loop over available replies computes `AsyncReplies.Process` |
| `Async.AsyncContext.Command` | vendors/hiredis/async.c:598-676 | accepted exactly when the connection is neither disconnecting nor freeing, and then queued last and appended to the output |
| `Async.Serve` | vendors/hiredis/async.c:228-676 | a whole life of the connection objects follows the state machine and keeps its invariant |
| `Schedule.StepInv` | engin/chroutine.cpp:132-350 | map and list agree without duplicates, only the chroutine with running_id is running, and every step keeps this, except exactly a wake-up that stops the running chroutine |
| `Schedule.StepSane` | engin/chroutine.cpp:132-350 | every step, those wake-ups included, keeps map and list in agreement; the running chroutine is off the schedule exactly from such a wake-up until it ends, and its record is not freed before |
| `Schedule.FreedAreGone` | engin/chroutine.cpp:310-323 | removed chroutines are freed only at the start of a pass, when none runs; and a step leaves one among them that still runs or is scheduled if and only if it is a wake-up that stops the running one |
| `Schedule.RemoveExactly` | engin/chroutine.cpp:132-152 | list, iterator, map and freed chroutines after a removal, by position |
| `Schedule.CreateSonLinks` | engin/chroutine.cpp:222-247 | a new son is last on the list, knows its father, and is known to it with the reporter; nobody else changes |
| `FatherSon.FreedInRuns` | engin/chroutine.cpp:132-152 | over whole runs, a chroutine that waits to be freed is in neither map nor list; it runs if and only if it was taken off the schedule while it ran; and in all other states the full structure holds |
| `Scenarios.SonWakesFather` | engin/chroutine.cpp:163-185 | a run in which a son wakes its father and goes on running: it is off the list, its next yield does not suspend it and leaves a null record in the map, and its end writes its father's reporter a second time |
| `Scenarios.OlderSonAnswers` | engin/chroutine.cpp:163-185 | a run in which an older son's end is reported for a younger one that still lives |
| `Fairness.NoStarvation` | engin/chroutine.cpp:308-352 | over every run that adds no chroutine, with n chroutines, at most n*n + n passes go by before one that stays ready runs or leaves, whatever the others do |
| `Fairness.PickedWithinOneRound` | engin/chroutine.cpp:308-352 | while the list does not change, n passes suffice |
| `Fairness.AlwaysPicked` | engin/chroutine.cpp:308-352 | a ready chroutine that is nobody's son is always picked |
| `FatherSon.StepPhase` | engin/chroutine.cpp:54-76 | a step leaves a wait for a son pending, answered, resumed from with one outcome, or without a father, if and only if it is not the end of another son of that father, or of that son after it was taken off the schedule; a father resumes early only if answered |
| `FatherSon.WaitForSon` | engin/chroutine.cpp:271-292 | a father that waits for its living son with a positive timeout ms at time now resumes with exactly one outcome, done, or timeout in a pass from now + ms on, and the son gone for good, if and only if before that no other son of it ends, nor the son itself after the father was woken while that son ran |
| `FatherSon.ExclusiveInRuns` | engin/chroutine.cpp:222-247 | in every run with new ids and reporters, nobody but a father has the name of its latest son or its reporter |
| `FatherSon.WaitForSonInRuns` | engin/chroutine.cpp:163-292 | the same if and only if over every whole run from an empty schedule with new ids and reporters, with nothing assumed of father, son and reporter beyond the wait itself |
| `FatherSon.CreateAndWait` | engin/chroutine.cpp:222-292 | in any run, for a father that creates a son with a new reporter and waits for it at once: the same if and only if, with no assumption about them at all |
| `Resting.WaitsItsTime` | engin/chroutine.cpp:43-52 | over every run: a chroutine that waits ms at time now is ready at a time t if and only if t is at least now + ms, or it was woken or answered, and it runs again only by a pass that finds it ready |
| `Resting.YieldsItsTicks` | engin/chroutine.cpp:43-52 | over every run: one that yields n ticks is ready if and only if n passes have gone over its node since, and it runs again only by a pass that finds it ready |
| `Migration.SourceKeepsRunning` | engin/chroutine.cpp:473-506 | a blocked thread keeps its running chroutine and nothing else |
| `Migration.TargetAppends` | engin/chroutine.cpp:473-523 | the chroutines arrive behind those already there, in order and with their records |
| `Migration.MigrationConserves` | engin/chroutine.cpp:473-523 | the two threads together have the same ids as before and share none |
| `Threads.Chroutine.YieldOver` | engin/chroutine.cpp:54-76 | the end of a wait: the deadline is cleared, and a son to be stopped is reported once and forgotten |
| `Threads.ChroutineThread.RemoveChroutine` | engin/chroutine.cpp:132-152 | the chroutine leaves map and list and waits to be freed, and the iterator goes to the node after it, wherever it stood |
| `Threads.ChroutineThread.PickRunChroutine` | engin/chroutine.cpp:308-352 | one pass, ticking the waits it goes over, is the step `Pick`; the chroutine that gets to run is the first from the iterator on that has no tick left and whose deadline has passed |
| `Threads.ChroutineThread.CreateSonChroutine` | engin/chroutine.cpp:222-247 | father, son and reporter are linked as the step says, or nothing is created |
| `Threads.ChroutineThread.WaitCurrent` | engin/chroutine.cpp:271-292 | the running chroutine is suspended until its deadline, now + ms, with its choice whether to stop its son |
| `Threads.ChroutineThread.EntryReturns` | engin/chroutine.cpp:163-185 | the end of a chroutine removes it and answers its father, also when it is no longer on the schedule |
| `Threads.ChroutineThread.AwakeChroutine` | engin/chroutine.cpp:450-460 | waking ends the wait at once |
| `Threads.ChroutineThread.MoveChroutinesTo` | engin/chroutine.cpp:473-506 | both threads end in the states `Migration.Source` and `Migration.Target` |
| `Engine.Classify` | engin/engine.cpp:324-352 | the good and the bad threads, in pool order, by the 500 ms limit; a blocked thread that answers again is set running |
| `Engine.CheckThreads` | engin/engine.cpp:318-366 | every bad thread is emptied into a good one, bad thread number k into good thread number k modulo their count; no chroutine is lost or duplicated over the whole pool |
| `Engine.EvenTurns` | engin/engine.cpp:361-364 | counting so, no good thread is given the chroutines of two more bad threads than another |
| `Engine.MovedConserves` | engin/engine.cpp:361-364 | one migration keeps all schedules of the pool sound and disjoint |
| `Dictionary.NextPower` | vendors/hiredis/dict.c:307-316 | the smallest power of two, at least 4, that is large enough, or LONG_MAX for a size from there on; the doubling does not wrap |
| `Dictionary.BucketIsRemainder` | vendors/hiredis/dict.c:328 | hash & sizemask is the remainder by the size, a power of two, so that every bucket can be hit |
| `Dictionary.Dict.KeyIndex` | vendors/hiredis/dict.c:321-338 | expands a full table, and returns -1 for a present key and the bucket of a new one read as a C int: the bucket itself if and only if its number is below 2^31, and -1 for the last of 2^32 |
| `Dictionary.Dict.Find` | vendors/hiredis/dict.c:244-257 | finds exactly the bindings of the map that the table represents |
| `Dictionary.Dict.Add` | vendors/hiredis/dict.c:136-155 | a new key is bound, at the head of its chain, in a table expanded when it was full, if and only if its bucket number is below 2^31; a present key is an error, for which a new one in bucket 2^32-1 is taken; other bindings stay |
| `Dictionary.Dict.Replace` | vendors/hiredis/dict.c:161-181 | the key is bound to the value and the result says whether it was new, unless it is new and its bucket number is 2^31 or more; then nothing is bound |
| `Dictionary.Dict.Delete` | vendors/hiredis/dict.c:183-211 | the key's entry leaves its chain and the others keep their order |
| `Dictionary.Dict.Expand` | vendors/hiredis/dict.c:89-133 | rehashing keeps every binding, every entry sits in its bucket, and the old table ends empty |
| `Dictionary.VisitAll` | vendors/hiredis/dict.c:259-287 | iterating returns every entry exactly once, also when entries are deleted as they are returned, if and only if an int can count the buckets or there is no entry; otherwise it returns none |
| `Dictionary.DictIterator.Next` | vendors/hiredis/dict.c:269-287 | returns the first pending entry; the rest stay pending in order |
| `Dictionary.FlatDistinct` | vendors/hiredis/dict.c:259-287 | bucket order lists every binding once |
| `Sds.Sds.MakeRoomFor` | vendors/hiredis/sds.c:194-237 | there is room for the bytes to come, twice as much as needed below 1 MB and 1 MB more above, the string is unchanged, and the header chosen can hold the new capacity |
| `Sds.Sds.CatLen` | vendors/hiredis/sds.c:376-385 | the bytes are appended and the string stays zero-terminated within its capacity |
| `Sds.Sds.CpyLen` | vendors/hiredis/sds.c:405-414 | the string becomes the given bytes |
| `Sds.Sds.Range` | vendors/hiredis/sds.c:712-738 | keeps the bytes from start to end, both included, or to the end of the string, or none; negative ends count from the end; of a string longer than an int, the part that an int makes of its length |
| `Sds.KeptExactly` | vendors/hiredis/sds.c:712-738 | which bytes a range is, for every pair of ends |
| `Sds.RangeExact` | vendors/hiredis/sds.c:712-738 | that is the range of the string itself, whatever the ends, if and only if its length is an int |
| `Sds.SplitLen` | vendors/hiredis/sds.c:793-840 | joining the tokens gives the string back, no token holds the separator, and each ends at the first separator that follows |
| `Sds.LeftmostIsUnique` | vendors/hiredis/sds.c:793-840 | for any separator only one list of tokens is cut so |
| `Sds.JoinIs` | vendors/hiredis/sds.c:1078-1087 | joining is concatenation with one separator after each part but the last |
| `Sds.SplitIsUnique` | vendors/hiredis/sds.c:793-840 | with a separator of one byte there is only one such list, so splitting also undoes joining |
| `Sds.JoinSds` | vendors/hiredis/sds.c:1078-1087 | the parts with the separator between them |
| `SdsRepr.CatRepr` | vendors/hiredis/sds.c:856-879 | appends the quoted form |
| `SdsRepr.SplitArgs` | vendors/hiredis/sds.c:931-1030 | the scanner finds the arguments of the line, or fails on unbalanced or badly closed quotes |
| `SdsRepr.SplitUndoesRepr` | vendors/hiredis/sds.c:856-1030 | for any list of byte strings, splitting their quoted forms joined by spaces gives exactly that list |
| `ReprText.EscapeSpelt` | vendors/hiredis/sds.c:856-879 | how each byte is quoted, in characters: six letters, printable ASCII as it is, two lower-case hexadecimal digits for the rest |
| `ReprText.HexReads` | vendors/hiredis/sds.c:948-958 | in double quotes a backslash, x and two hexadecimal digits of either case are one byte |
| `ReprText.BackslashReads` | vendors/hiredis/sds.c:960-972 | a backslash and n, r, t, b or a are the control character; before anything else it is dropped |
| `ReprText.DoubleQuotedText` | vendors/hiredis/sds.c:946-997 | text in quotes is itself, blanks included; it is refused if no quote closes it or the closing quote does not end the argument |
| `ReprText.PlainWords` | vendors/hiredis/sds.c:931-1030 | a line of plain words with blanks between splits into these words |
| `LogQueue.RingPush` | vendors/spdlog/details/circular_q.h:26-36 | pushing on the ring appends, and overruns the oldest item when the ring is full |
| `LogQueue.CircularQ.PushBack` | vendors/spdlog/details/circular_q.h:26-36 | appends while there is room, replaces the oldest item when full, and keeps nothing without capacity; the overrun counter counts what is lost |
| `LogQueue.CircularQ.PopFront` | vendors/spdlog/details/circular_q.h:40-44 | takes the oldest item |
| `LogQueue.BlockingQueue.Enqueue` | vendors/spdlog/details/mpmc_blocking_q.h:35-43 | blocks exactly when full, and never overruns |
| `LogQueue.BlockingQueue.DequeueFor` | vendors/spdlog/details/mpmc_blocking_q.h:57-69 | takes the oldest item, or times out exactly when there is none |
| `ThreadPool.Conservation` | vendors/spdlog/details/circular_q.h:26-55 | over all interleavings: enqueued = dequeued + overrun + queued, and the dequeued messages are an in-order subsequence of the enqueued ones |
| `ThreadPool.BlockingNeverDrops` | vendors/spdlog/details/mpmc_blocking_q.h:35-43 | with the blocking policy the overrun counter does not move |
| `ThreadPool.OneWorkerInOrder` | vendors/spdlog/details/thread_pool.h:196-234 | a single worker handles the dequeued messages in order |
| `ThreadPool.DestructorDrains` | vendors/spdlog/details/thread_pool.h:141-158 | once all the workers have left, every message that was queued when the destructor started has been dequeued in its turn and handled exactly once |
| `ThreadPool.NeverStuck` | vendors/spdlog/details/thread_pool.h:141-158 | until the destructor is done some step other than a timeout is possible, if and only if the queue has a capacity |
| `ThreadPool.ClosingIsBounded` | vendors/spdlog/details/thread_pool.h:141-158 | only a bounded number of such steps can follow the start of the destructor |
| `Channel.PutBalances` | engin/channel.hpp:93-129 | a write keeps the balance: values go to reads in order, readers wait only on an empty ring and writers only on a full one |
| `Channel.GetBalances` | engin/channel.hpp:131-165 | a read, with the refill from the first waiting writer, keeps the balance |
| `Channel.AsMuchAsPossible` | engin/channel.hpp:93-165 | as many reads have a value as the accepted calls allow, the ring holds as much of the rest as it can, and never do readers and writers both wait |
| `Channel.Channel.Write` | engin/channel.hpp:93-129 | hands over, stores, waits or refuses, and says whom it wakes; the write index is the read index plus the unread count, modulo the size |
| `Channel.Channel.Read` | engin/channel.hpp:131-165 | takes the oldest value, waits or refuses, refills the ring from the first waiting writer, and keeps the same relation of the indices |
| `Fp.TimesRounds` | vendors/spdlog/fmt/bundled/format-inl.h:442-451 | the product is exactly the 128-bit product divided by 2^64, rounded half up, and no operation wraps |
| `Fp.Normalize` | vendors/spdlog/fmt/bundled/format-inl.h:400-412 | the value is unchanged and the top bit is set |
| `Fp.ComputeBoundaries` | vendors/spdlog/fmt/bundled/format-inl.h:418-425 | both boundaries have one exponent and the upper one, normalized, is exactly midway to the next significand; the lower one is exactly midway to the double below if and only if the value is not the smallest normal double, where it is a quarter of the spacing below |
| `Fp.PredecessorIsNext` | vendors/spdlog/fmt/bundled/format-inl.h:378-397 | no double lies between one and the double called the one below it |
| `Grisu.StepsClosest` | vendors/spdlog/fmt/bundled/format-inl.h:466-473 | no admissible number of units taken off comes closer to the value than the rounding loop does |
| `Grisu.Round` | vendors/spdlog/fmt/bundled/format-inl.h:466-481 | the last digit is lowered by exactly that many units and stays a digit; a digit too many is cut off |
| `Grisu.RoundingIsBest` | vendors/spdlog/fmt/bundled/format-inl.h:466-473 | the rounded digits are the closest multiple of the unit in the interval, if it holds one |
| `Grisu.NoneShorter` | vendors/spdlog/fmt/bundled/format-inl.h:505-530 | if digit generation went on, no decimal with one digit less lies in the interval above its lower end |
| `Grisu.OnlyTheLowerEnd` | vendors/spdlog/fmt/bundled/format-inl.h:525 | such a decimal lies in the closed interval exactly if it is the lower end itself |
| `Grisu.GenDigits` | vendors/spdlog/fmt/bundled/format-inl.h:484-531 | the digits produced are the shortest decimal in the interval above its lower end and the closest to the value of those as short; all are 0..9 and nothing wraps; the table of powers is left if and only if no decimal with nine fractional digits lies there, more digits are wanted, and the lower end is no whole number |
| `GrisuMeaning.FitsMeans` | vendors/spdlog/fmt/bundled/format-inl.h:484-531 | in products and powers alone: the decimal produced lies in the interval, no decimal with the same exponent in it is closer to the value, and none with a digit less lies in it above its lower end |
| `GrisuMeaning.NeedsMoreMeans` | vendors/spdlog/fmt/bundled/format-inl.h:517-529 | and what leaving the table means |
| `Grisu.NarrowInterval` | vendors/spdlog/fmt/bundled/format-inl.h:517-529 | an interval as wide as that around a double, and a number of digits, for which that is so |
| `Grisu.PastTheTable` | vendors/spdlog/fmt/bundled/format-inl.h:528 | digit generation on that input leaves the table |

## Left out

- Sockets, epoll, curl, gRPC and generated protobuf code: input, output and foreign calls.
- Publish/subscribe and monitor mode of async.c, and the connect and disconnect callbacks of the user.
- `Async.AsyncContext.Command`: models regular commands only; subscribe, unsubscribe and monitor commands are not told apart.
- Chroutine stacks and real context switches, the memory order of atomics, and clocks.
- Load counters, selectors, timers and the dispatch seed of the engine.
- `Threads.ChroutineThread.EntryReturns`: models the end of a chroutine on the thread that created it. A running chroutine is never moved, but makecontext binds entry to the creating thread, so a chroutine that was moved still removes itself, clears the running id and looks for its father there; one that was moved before it started looks up the running id of the old thread and runs the function of that chroutine. None of this is modelled.
- `Engine.CheckThreads`: the pool is a sequence of records, so that the update in place of the thread objects is shown only by `Threads.ChroutineThread.MoveChroutinesTo`.
- `Dictionary.Dict.Delete`: chains are sequences, so the pointer surgery on links is not modelled.
- Cross-thread wake-ups: a waker may run between the channel's unlock and the suspension of the waiting chroutine; nothing is claimed there.
- `channel_t::reset`, which leaves the waiting queues alone.
- `Channel.Channel.Read`: says nothing about the lock that the refill would take a second time.
- The text of reader errors, and giving back an oversized reader buffer.
- `Format.FormatCommand`: a directive other than `%s`, `%b` and `%%` is reported, but neither formatted as printf does nor told from one that the code refuses as a format error.
- `Dictionary.Dict.Expand`: chains are sequences, so that the entries themselves are moved is not shown.
- `Grisu.GenDigits`: get_cached_power, the sprintf fallback and the layout of the digits around them are not modelled, nor is the size of the digit buffer.
- Failed allocations everywhere.
- The remaining functions of sds.c, such as trimming, mapping and formatted concatenation, which are thin loops or library calls.
- Lost wake-ups of the log queue's condition variables: a step is enabled whenever its predicate holds.
