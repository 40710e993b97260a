# Models and proofs of the concurrent cores, the HTTP parsers and the reactor

This project models the parts of the repository in which a mistake is hardest to see, and proves
what they promise. `dafny verify dfyconfig.toml` checks everything.

| module | what it models | form |
|---|---|---|
| `LockFreeStack`, `LockFreeSteps`, `LockFreeResults`, `LockFreeReclaim`, `LockFreeProgress` | the lock-free stack with deferred reclamation: `push` of `lock_free_stack_2`, `pop` of `lock_free_stack_3`, reclamation of `lock_free_stack_4` | step system, any number of threads, addresses reused |
| `MultipartHeader`, `MultipartFileNames`, `MultipartParser`, `MultipartSerializer` | the incremental multipart parser with its in-place buffer, and the serializer | class with the source's fields, against a function for each `case` |
| `MultipartStreaming`, `MultipartRefusals`, `MultipartRoundTrip`, `MultipartLateStart`, `MultipartDelivery` | what the parser makes of a text, for every way of cutting it into chunks | lemmas about those functions |
| `HttpClient`, `HttpResults` | `send`, redirects and `stop` on one `ClientImpl`, with every assertion | step system, any number of threads |
| `EventLoop` | the wakeup protocol of the reactor: pending list, eventfd counter, loop thread, producers | step system |
| `EpollPoller` | the channels known to the poller and the interest set of the kernel | classes |
| `ThreadPool` | `enqueue`, workers and `shutdown` of the server's thread pool | step system |
| `FizzBuzz` | four threads, one mutex, one condition variable | step system |
| `ParallelFind` | the two parallel searches that stop early through a shared flag | step system over the tree of calls, or over blocks |
| `Chunked`, `ChunkSizes` | writing and reading the chunked transfer coding (section 7.1 of RFC 9112) | classes for stream, line reader and sink |
| `PathParams` | the route matcher with path parameters | scanning methods, against functions |
| `Ranges`, `RangeHeader`, `RangeTokens` | validation of byte ranges (section 14.2 of RFC 9110), the multipart body made of them, and the header they come from | in-place method on an array, scanning methods |
| `QueryText`, `FormText`, `Url` | query strings, form encoding and percent-encoding (section 2.1 of RFC 3986) | scanning methods |
| `Base64` | the base64 encoder with its 32-bit accumulator (section 4 of RFC 4648) | loop, against the standard's encoder and decoder |
| `PrefixFunction` | the prefix function of Knuth, Morris and Pratt | in-place method on an array |
| `Text`, `Search`, `Options` | trimming, splitting, first occurrences | shared helpers |

In the step systems a step is one atomic access to shared state, or one critical section of the
mutex that guards it. A schedule is any sequence of steps by any threads, and the results hold of
every schedule. Where the source asserts something, or where it would touch freed memory or a
closed socket, the step is a `Fault`, and the result is that there is none.

## What came out differently from what one might expect

Each of these is proved: that it happens, and the exact condition for it or against it.

- A multipart body does not arrive if its first boundary line is cut: the parser drops what does
  not hold the whole line, and although it may then start at a later occurrence of that line, in
  another item, a header or a content, it never catches up (`MultipartLateStart.LateStart`). If the
  line occurs only where it was written, the items from the first one on whose boundary line lies
  whole in one chunk arrive, and nothing else (`MultipartDelivery.TailDelivered`).
- After the first line cuts are harmless if and only if every header line is shorter than 8192
  characters (`MultipartDelivery.EveryCutDelivers`). Only the first line in the buffer is measured,
  so in one piece a content type of any length passes, and a line that names an item passes up to
  8192 (`MultipartDelivery.WholeDelivered`); cut 8193 characters after its start, a line of 8192 or
  more is refused (`MultipartDelivery.LongLineCut`). `MultipartDelivery.DeliveredIff` gives the
  exact condition for any single way of cutting.
- `stop` during a request that was redirected on the same client can be forgotten: the nested
  request clears the flag, and the socket stays open (`HttpClient.StopIsForgotten`). It closes the
  socket if and only if it came after the last time a request prepared the socket, or closing was
  due anyway (`HttpClient.EndOfRequest`).
- A functor that the loop thread queues before it calls `loop` does not wake `poll`
  (`EventLoop.StrandedBeforeLoop`); that is the only way to be left waiting (`EventLoop.NoLostWakeup`).
- A key-value pair that occurs twice in a query is read back once (`QueryText.RepeatedPairIsLost`);
  without such a pair the parameters come back, and only then (`QueryText.ParseUndoesWriteIff`).
- A thread pool without workers accepts jobs, and `shutdown` returns without running them
  (`ThreadPool.NoWorkerNoJob`); with a worker it runs all (`ThreadPool.ShutdownDrains`).
- The branch of `range_error` for a range with neither end is dead: no such range gets through
  `parse_range_header`, the only source of ranges (`RangeHeader.ParseRangeHeader`,
  `RangeHeader.NormalizedMeans`).
- `disableAll` on a channel that it has already taken out of the kernel puts it back, without
  events (`EpollPoller.EpollPoller.DisableAllTwice`).

## Model

| member | source | states |
|---|---|---|
| `LockFreeResults.MemorySafety` | cpp_concurrency_2nd/lock_free_stack.cpp:58-162 | in no schedule does a step read, write or delete a node that is not allocated: no use after free, no double free, no counter below zero |
| `LockFreeResults.SafeDeletion` | cpp_concurrency_2nd/lock_free_stack.cpp:111-141 | a node about to be deleted is allocated, on neither list, and no other thread has any local that refers to it |
| `LockFreeResults.NoAba` | cpp_concurrency_2nd/lock_free_stack.cpp:92-94 | when the compare-exchange of a pop finds its `old` at the head, the successor it read before is still the successor, although addresses are reused |
| `LockFreeResults.RefinesStack` | cpp_concurrency_2nd/lock_free_stack.cpp:58-101 | every step leaves the values below `head` alone or performs on them the one stack operation that takes effect there |
| `LockFreeResults.Linearizable` | cpp_concurrency_2nd/lock_free_stack.cpp:58-101 | for every schedule the operations that took effect form a legal history of a sequential stack, give its present contents, and explain every result returned, in the order of each thread |
| `LockFreeResults.OrderIsStable` | cpp_concurrency_2nd/lock_free_stack.cpp:58-101 | that order only grows: what has taken effect stays before everything later |
| `LockFreeResults.PopAtMostOnce` | cpp_concurrency_2nd/lock_free_stack.cpp:88-101 | as multisets, values pushed are values popped plus values on the stack |
| `LockFreeResults.NoLeak` | cpp_concurrency_2nd/lock_free_stack.cpp:105-162 | once no call is running, the allocated nodes are those on the stack and on `to_be_deleted`, and the counter is zero |
| `LockFreeReclaim.SolePopFrees` | cpp_concurrency_2nd/lock_free_stack.cpp:111-141 | a pop that returns a value, and that no other pop overlaps, has freed its node and every node that was pending when it returns; then `to_be_deleted` is empty, and what is allocated is on the stack or being pushed |
| `LockFreeReclaim.OneThreadFrees` | cpp_concurrency_2nd/lock_free_stack.cpp:105-141 | in a run of one thread, whenever no call is going on the allocated nodes are exactly those on the stack |
| `LockFreeReclaim.PendingIsEmpty` | cpp_concurrency_2nd/lock_free_stack.cpp:95-98 | in no run does a node on `to_be_deleted` still hold a value, however long it has to wait |
| `LockFreeProgress.FinishesAlone` | cpp_concurrency_2nd/lock_free_stack.cpp:58-162 | after any schedule, a thread that runs alone returns from its call, within a bound that follows from the lists |
| `LockFreeResults.Reachable` | cpp_concurrency_2nd/lock_free_stack.cpp:58-162 | the invariant (two disjoint lists, one owner for each other node, counter equal to the threads in pop) holds after every schedule |
| `LockFreeSteps.Step` | cpp_concurrency_2nd/lock_free_stack.cpp:58-162 | every step of every thread keeps the invariant and does not fault |
| `MultipartParser.MultipartFormDataParser.Parse` | file_server/httplib.h:4560-4695 | a call of `parse` ends, and its result, the new state, the retained buffer and the calls of both callbacks are those of `Parsed` |
| `MultipartParser.MultipartFormDataParser.HeadersCase` | file_server/httplib.h:4580-4650 | the case for header lines, its inner loop included, does what `OnHeaders` says |
| `MultipartParser.MultipartFormDataParser.BodyCase` | file_server/httplib.h:4651-4673 | the case for the body does what `OnBody` says |
| `MultipartParser.MultipartFormDataParser.FirstBoundaryCase` | file_server/httplib.h:4567-4574 | the case for the first boundary does what `OnFirstBoundary` says |
| `MultipartParser.MultipartFormDataParser.BoundaryCase` | file_server/httplib.h:4674-4688 | the case after a delimiter does what `OnBoundary` says |
| `MultipartParser.MultipartFormDataParser.ReadHeaderLine` | file_server/httplib.h:4595-4644 | what one header line makes of the part, accepted or refused, partial changes included |
| `MultipartParser.MultipartFormDataParser.BufFind` | file_server/httplib.h:4743-4764 | the position of the first occurrence in the used part of the buffer, or its size |
| `MultipartParser.MultipartFormDataParser.BufAppend` | file_server/httplib.h:4766-4782 | the used part becomes what was left of it, followed by the data, although it is moved in place |
| `MultipartParser.MultipartFormDataParser.StartWith` | file_server/httplib.h:4724-4731 | whether the text stands at that place of the buffer |
| `MultipartHeader.ParseHeader` | file_server/httplib.h:3913-3947 | accepted if and only if a name, a colon and a value that is not blank are there |
| `MultipartHeader.HeaderIff` | file_server/httplib.h:3913-3947 | header lines are exactly those with something before the first colon and something that is not blank after it; every other line is refused |
| `MultipartHeader.ParseDispositionParams` | file_server/httplib.h:4473-4495 | the parameters of a Content-Disposition line, each distinct token once |
| `MultipartHeader.ReadDisposition` | file_server/httplib.h:4608-4644 | the line the serializer writes sets exactly the name and the file name |
| `MultipartHeader.ReadType` | file_server/httplib.h:4603-4607 | the line the serializer writes sets exactly the content type |
| `MultipartFileNames.ReadEncodedName` | file_server/httplib.h:4608-4644 | whatever the case of the header names and the white space after them, an extended file name (any non-empty bytes, percent-encoded) is the file name of the part, with or without a plain one before it |
| `MultipartFileNames.ReadOtherEncoding` | file_server/httplib.h:4608-4644 | the same of an extended file name that another writer encodes, with plain characters and escapes of either case; a `+` stays |
| `MultipartFileNames.RefuseOtherName` | file_server/httplib.h:4631-4642 | an extended file name without that character set, or with nothing after it, is refused, after the plain names were taken |
| `MultipartFileNames.NameNeeded` | file_server/httplib.h:4608-4644 | a part whose disposition line has a file name but no name is refused |
| `MultipartFileNames.OtherHeaderIgnored` | file_server/httplib.h:4595-4644 | a header line of any other name is accepted and changes nothing |
| `MultipartFileNames.TypeAlike` | file_server/httplib.h:4601-4607 | a content type is read whatever the case of the header name and the blanks around it |
| `MultipartRefusals.FailureMeans` | file_server/httplib.h:4560-4695 | `parse` fails only if a callback refused, or a header line is too long or malformed: never because something is still missing |
| `MultipartRefusals.BadLineRefused` | file_server/httplib.h:4580-4644 | wherever the text is cut, a part with a malformed header line makes `parse` fail, and no callback hears of that part |
| `MultipartStreaming.FeedAll` | file_server/httplib.h:4560-4695 | chunk after chunk through `parse` is `Feed` |
| `MultipartStreaming.BodyStreaming` | file_server/httplib.h:4651-4673 | from the body state, for every stream and every chunking, the content callbacks get exactly the bytes before the first delimiter; until it is whole, those and the retained bytes together are what was fed |
| `MultipartStreaming.RefusalStops` | file_server/httplib.h:4586-4673 | a callback that answers false gets the last call, and the parser fails and is invalid |
| `MultipartStreaming.FailedIsInvalid` | file_server/httplib.h:4560-4695 | a call of `parse` that fails leaves the parser invalid, unless it was valid before |
| `MultipartSerializer.Serialize` | file_server/httplib.h:4869-4882 | the text of all items, and the closing delimiter if asked for |
| `MultipartSerializer.ItemBegin` | file_server/httplib.h:4840-4855 | the boundary line and the header lines of an item |
| `MultipartSerializer.BoundaryCharsValid` | file_server/httplib.h:4827-4837 | accepted if and only if all characters are letters, digits, `-` or `_`; then the boundary can be sent |
| `MultipartDelivery.DeliveredIff` | file_server/httplib.h:4560-4695 | for every way of cutting: all items arrive in order and the parser ends valid if and only if the first non-empty chunk holds the first boundary line whole and no call of `parse` measures a header line beyond the limit |
| `MultipartRoundTrip.RoundTrip` | file_server/httplib.h:4548-4789 | with header lines shorter than 8192, parsing the serialized items gives the same items in the same order and ends valid, however the text is cut into chunks after its first line |
| `MultipartRoundTrip.DeliveredUnlessTooLong` | file_server/httplib.h:4579-4650 | with the first line whole, the items arrive unless some call measures a header line as too long, and not if one does |
| `MultipartDelivery.EveryCutDelivers` | file_server/httplib.h:4580-4582 | all ways of cutting after the first line deliver the items if and only if every header line is shorter than 8192 |
| `MultipartDelivery.WholeDelivered` | file_server/httplib.h:4580-4582 | in one piece the items arrive if and only if no line that names an item is longer than 8192; a content type may have any length |
| `MultipartDelivery.LongLineCut` | file_server/httplib.h:4580-4582 | for any header line of at least 8192 characters, three chunks after whose first two, 8193 characters into the line, the items cannot arrive |
| `MultipartLateStart.LateStart` | file_server/httplib.h:4567-4574 | for every non-empty list of items, if the first non-empty chunk does not hold the first boundary line whole, not all of them arrive, whatever else in the text looks like it |
| `MultipartDelivery.TailDelivered` | file_server/httplib.h:4567-4574 | when the boundary line occurs only where it was written and header lines are shorter than 8192, exactly the items from the first one on whose line lies whole in one chunk arrive; without one, nothing does |
| `MultipartSerializer.CrlfBelongs` | file_server/httplib.h:4857-4882 | the CRLF after a content and the next boundary line are one delimiter |
| `HttpClient.NeverFaults` | file_server/httplib.h:7025-7042 | in every interleaving of `send` and `stop` no assertion on the requests in flight or their thread fails, and no request transfers on a closed socket |
| `HttpClient.StepKeeps` | file_server/httplib.h:7080-7177 | every step keeps the invariant: one thread in `send`, the count of requests in flight equal to its nested calls, its thread recorded |
| `HttpClient.InUseStaysOpen` | file_server/httplib.h:7025-7042 | while a request transfers, no step of any thread closes or replaces the socket it uses |
| `HttpClient.NoForeignClose` | file_server/httplib.h:8303-8324 | while a request is in flight, no other thread closes or replaces the socket |
| `HttpClient.WorkingHasSocket` | file_server/httplib.h:7132-7170 | a request in progress has the client's open socket |
| `HttpClient.EndOfRequest` | file_server/httplib.h:7151-7166 | at the end of a request the socket is closed if and only if it was closed already, closing was due, the request failed, or `stop` came after the last preparation of the socket |
| `HttpResults.ReturnsVerdict` | file_server/httplib.h:7074-7078 | in every interleaving `send` returns true if and only if the last response asked for on its behalf arrived, redirects included |
| `HttpResults.TrueMeansArrived` | file_server/httplib.h:7188-7323 | such a result means that every response arrived and no more redirects were followed than allowed |
| `HttpResults.FailureCloses` | file_server/httplib.h:7150-7166 | at the end of a request the connection is closed if and only if it was already, keeping it was not asked for, its response did not arrive, or `stop` came after the last preparation |
| `HttpResults.StopEndsConnection` | file_server/httplib.h:8303-8324 | a `stop` that finds a request in flight closes the connection at the next end of a request, unless one has prepared the socket in between |
| `HttpResults.IdleStopCloses` | file_server/httplib.h:8320-8323 | a `stop` that finds none closes it at once |
| `HttpResults.ConnectionReused` | file_server/httplib.h:7089-7107 | a request on an open connection that is alive uses that connection |
| `HttpResults.DeadReplaced` | file_server/httplib.h:7095-7109 | a connection that is no longer alive is closed, and a new one takes its place if the peer can be reached |
| `HttpResults.CloseIsHonoured` | file_server/httplib.h:7213-7228 | a response that asks to close the connection, and redirects nowhere, has it closed when its request ends, whatever other threads do meanwhile |
| `HttpClient.StopCloses` | file_server/httplib.h:8303-8324 | `stop` during a request that was not redirected on this client closes the socket at its end |
| `HttpClient.StoppedIsClosed` | file_server/httplib.h:8303-8324 | over whole runs: an idle client whose last event was a `stop` in flight has no open socket |
| `HttpClient.StopIsForgotten` | file_server/httplib.h:7094-7096 | a run in which a nested request forgets the `stop` and the socket stays open |
| `HttpClient.RequestProgress` | file_server/httplib.h:7268-7323 | every step of a request but transfers lowers a measure of 8 * (redirects + 1), and no other thread changes it, so redirects end |
| `HttpClient.RedirectsBoundDepth` | file_server/httplib.h:4397-4421 | each nested request has one redirect less than its caller |
| `HttpClient.NeverStuck` | file_server/httplib.h:7080-7088 | the thread that holds the request mutex can always go on, and when none does every thread can |
| `EventLoop.ExecutedInOrder` | myserver/common/event_loop.cpp:106-120 | in every run the functors executed are a prefix of those queued: in order, none twice, none skipped |
| `EventLoop.NoLostWakeup` | myserver/common/event_loop.cpp:62-140 | when the loop is in poll with functors pending, the eventfd is readable or a wakeup is due, or all of them were queued by the loop thread outside `loop` |
| `EventLoop.PollMeansDone` | myserver/common/event_loop.cpp:157-171 | in poll, exactly what had been queued when the list was last taken has been executed |
| `EventLoop.StrandedBeforeLoop` | myserver/common/event_loop.cpp:113-119 | a run in which what the loop thread queued before `loop` is pending, and nothing will wake poll |
| `EventLoop.QueueTakesEffect` | myserver/common/event_loop.cpp:106-120 | a functor is queued last, and its thread is then due to decide on the wakeup |
| `EventLoop.NoPollAfterQuit` | myserver/common/event_loop.cpp:62-82 | after a quit inside `loop` the loop thread does not enter poll again before it has left `loop` |
| `EventLoop.QuitEnds` | myserver/common/event_loop.cpp:62-82 | once it is told to quit, every step of the loop thread lowers the number of steps until it leaves `loop` |
| `EventLoop.ReadClears` | myserver/common/event_loop.cpp:132-140 | once the eventfd was handled, poll does not find it readable before some thread wakes the loop again |
| `EventLoop.NothingUnread` | myserver/common/event_loop.cpp:62-140 | a wakeup that made poll return is read: when the loop is back in poll, what stands in the eventfd has been written since poll returned |
| `EventLoop.ReadsSomething` | myserver/common/event_loop.cpp:122-140 | in no run is the eventfd read while it is empty, and its counter never exceeds its range |
| `EventLoop.RunKeeps` | myserver/common/event_loop.cpp:62-171 | the invariant of the protocol after every run |
| `EpollPoller.EpollPoller.UpdateChannel` | myserver/common/epoll_poller.cpp:52-82 | the channel is watched for its events, or no longer if it was and has none; no epoll_ctl fails; other channels are untouched |
| `EpollPoller.EpollPoller.RemoveChannel` | myserver/common/epoll_poller.cpp:94-105 | neither the poller nor the kernel knows the channel any more; no epoll_ctl fails |
| `EpollPoller.EpollPoller.Register` | myserver/net/channel.cpp:8-10 | a new channel, known to neither the poller nor the kernel |
| `EpollPoller.EpollPoller.Update` | myserver/common/epoll_poller.cpp:108-129 | epoll_ctl: adding fails exactly for watched descriptors, modifying and deleting for others |
| `EpollPoller.EpollPoller.HasChannel` | myserver/common/poller.cpp:10-14 | true if and only if the channel is not new |
| `EpollPoller.EpollPoller.ChangeEvents` | myserver/include/channel.h:37-41 | after a change of events the kernel watches every channel for what it is interested in |
| `EpollPoller.EpollPoller.Replay` | myserver/common/epoll_poller.cpp:52-105 | over any sequence of changes and removals the kernel watches exactly the added channels, for their events, and the map holds exactly those that are not new |
| `EpollPoller.EpollPoller.DisableAllTwice` | myserver/common/epoll_poller.cpp:56-68 | disabling a channel twice puts it back into the kernel |
| `ThreadPool.OnceAndInOrder` | file_server/httplib.h:679-690 | in every run jobs are taken first in, first out, each once and by one worker, and a positive queue limit is kept |
| `ThreadPool.AcceptedIfRoom` | file_server/httplib.h:679-690 | in every run a job is refused if and only if there is a limit and that many jobs wait; otherwise it is the last in the queue and a notification is due |
| `ThreadPool.NeverAllAsleep` | file_server/httplib.h:714-723 | with jobs waiting the workers are never all asleep unless a notification is due |
| `ThreadPool.ReturnsOnlyDrained` | file_server/httplib.h:717-720 | a worker returns only after shutdown and when every job accepted before has been taken; none sleeps through it |
| `ThreadPool.ShutdownDrains` | file_server/httplib.h:692-705 | when shutdown returns, every job accepted before it was called has run, if there is a worker |
| `ThreadPool.NoWorkerNoJob` | file_server/httplib.h:668-674 | a run without workers in which shutdown returns and an accepted job has not run |
| `ThreadPool.DrainEnds` | file_server/httplib.h:708-735 | while shutdown joins, every worker that has not returned can go on, and each step lowers a measure |
| `ThreadPool.StepKeeps` | file_server/httplib.h:679-735 | every step keeps the invariants of queue, jobs, shutdown and notifications |
| `FizzBuzz.EndsWithAllWords` | any/concurrency/LT_1195_fizzbuzz.cpp:20-102 | a run that cannot go on has all four threads returned and has printed exactly the words for 1 to n |
| `FizzBuzz.PrintsInOrder` | any/concurrency/LT_1195_fizzbuzz.cpp:20-102 | at any time the words printed are the first ones of the right sequence, and the counter is at most n + 1 |
| `FizzBuzz.Bounded` | any/concurrency/LT_1195_fizzbuzz.cpp:36-101 | every run is finite: at most 13n + 48 steps, and two more for each spurious wakeup |
| `FizzBuzz.NoDeadlock` | any/concurrency/LT_1195_fizzbuzz.cpp:36-101 | while a thread has not returned, some thread can take a step |
| `FizzBuzz.NobodyOversleeps` | any/concurrency/LT_1195_fizzbuzz.cpp:39-49 | when the mutex is free, no sleeping thread has a true predicate |
| `FizzBuzz.ActKeeps` | any/concurrency/LT_1195_fizzbuzz.cpp:36-101 | every step, and every spurious wakeup, keeps the invariant |
| `ParallelFind.AsyncFinds` | cpp_concurrency_2nd/parallel_find_accu_async_for_each.cpp:263-303 | in every interleaving, when the search can return it returns the end if and only if nothing matches, and otherwise the position of a match |
| `ParallelFind.ResultMeans` | cpp_concurrency_2nd/parallel_find_accu_async_for_each.cpp:284-288 | what the result of any call says about its own range |
| `ParallelFind.StepsEnd` | cpp_concurrency_2nd/parallel_find_accu_async_for_each.cpp:272-280 | every step of an unfinished scan lowers a measure |
| `ParallelFind.NeverStuck` | cpp_concurrency_2nd/parallel_find_accu_async_for_each.cpp:284-288 | as long as a call cannot return, one of its scans can go on |
| `ParallelFind.SearchFinds` | cpp_concurrency_2nd/parallel_find_accu_async_for_each.cpp:194-258 | when all threads have ended the flag is up if and only if something matches, and then the promise holds a match, although several threads may try to set it |
| `ParallelFind.SearchStepsEnd` | cpp_concurrency_2nd/parallel_find_accu_async_for_each.cpp:205-213 | a thread that has not ended can always go on, and each of its steps lowers a measure |
| `ParallelFind.SearchEnds` | cpp_concurrency_2nd/parallel_find_accu_async_for_each.cpp:194-258 | in every run the threads together take at most two steps for each element and two for each thread |
| `ParallelFind.ScanStopsEarly` | cpp_concurrency_2nd/parallel_find_accu_async_for_each.cpp:272-280 | once the flag is up, a scan looks at no more than the element it is at, and ends |
| `ParallelFind.ScanSizes` | cpp_concurrency_2nd/parallel_find_accu_async_for_each.cpp:268-292 | fewer than 50 elements are one scan; more are shared out to scans of 25 to 49 elements |
| `ParallelFind.ThreadsMeans` | cpp_concurrency_2nd/parallel_find_accu_async_for_each.cpp:230-233 | as many threads as the hardware offers, two if that is unknown, unless one for each 25 elements is fewer |
| `ParallelFind.Blocks` | cpp_concurrency_2nd/parallel_find_accu_async_for_each.cpp:226-250 | the blocks of the threads are not empty, follow one another, cover the range, and are equal in size but for the last |
| `ParallelFind.Accumulate` | cpp_concurrency_2nd/parallel_find_accu_async_for_each.cpp:16-53 | the sums of the blocks add up to the sum of all elements |
| `Chunked.RoundTrip` | file_server/httplib.h:4037-4089 | reading what any run of non-empty writes followed by done put on the stream gives what was written and uses up just that, whatever stands before and after |
| `Chunked.ReadContentChunked` | file_server/httplib.h:4037-4089 | for every splitting of the reads, the result, the body, the trailer lines and the position are those of `Chunks` |
| `Chunked.ReadContentWithLength` | file_server/httplib.h:3988-4008 | succeeds if and only if that many bytes are there, and delivers them |
| `Chunked.LineReader.GetLine` | file_server/httplib.h:2765-2789 | the next line, short or longer than the fixed buffer, or failure |
| `Chunked.LineReader.Append` | file_server/httplib.h:2791-2802 | the line grows by one character, from the fixed to the growing buffer |
| `Chunked.WriteContentChunked` | file_server/httplib.h:4284-4385 | on success the stream holds the chunks of all writes and the end marks, and the provider was called until a turn ended the output |
| `Chunked.DataSink.Write` | file_server/httplib.h:4291-4316 | one chunk for a non-empty write, nothing for an empty one, and nothing after a failure |
| `Chunked.DataSink.Done` | file_server/httplib.h:4320-4364 | the end mark |
| `Chunked.FromIToHex` | file_server/httplib.h:2432-2440 | the hexadecimal digits of the number |
| `Chunked.StrtoulUndoesHex` | file_server/httplib.h:4050-4052 | a size line is read back as the size that was written |
| `ChunkSizes.SizeMeans` | file_server/httplib.h:4050-4052 | a size line is the number that its hexadecimal digits say, in either case, with leading zeros and an extension; from the largest unsigned long on it is that |
| `ChunkSizes.SizeRead` | file_server/httplib.h:4050-4052 | the same of every line that the conversion accepts: white space, a sign or `0x` may come first, and a minus counts down from the range |
| `ChunkSizes.ChunkDelivers` | file_server/httplib.h:4050-4065 | a chunk with any such size line delivers its data |
| `ChunkSizes.LastChunk` | file_server/httplib.h:4050-4055 | a size of zero, however written, is followed by the trailer |
| `ChunkSizes.TrailerRead` | file_server/httplib.h:4070-4089 | the lines of a trailer are read in order, up to the empty one |
| `ChunkSizes.NumberNeeded` | file_server/httplib.h:4050-4052 | a line that is no number is refused |
| `ChunkSizes.TooLargeRefused` | file_server/httplib.h:4050-4053 | a size beyond the range of the conversion is refused |
| `ChunkSizes.CrlfNeeded` | file_server/httplib.h:4057-4063 | a chunk that ends early or is not followed by CRLF is refused |
| `ChunkSizes.LongTrailerRefused` | file_server/httplib.h:4073-4074 | a line of the trailer beyond the limit is refused |
| `ChunkSizes.EndNeeded` | file_server/httplib.h:4044-4086 | a stream that ends before its last line is refused |
| `PathParams.MatchIff` | file_server/httplib.h:5773-5814 | a path matches with certain values if and only if they are slash-free and, filled into the pattern, give the path, up to one `/` after a parameter at its end; so the values are unique |
| `PathParams.Match` | file_server/httplib.h:5773-5814 | the loop decides that match and stores the values captured |
| `PathParams.StoredAll` | file_server/httplib.h:5804-5807 | every captured value is stored under its name, and nothing else is |
| `PathParams.StrNCmpIsZero` | file_server/httplib.h:5787-5792 | equality up to the length or a common NUL |
| `PathParams.ParsePattern` | file_server/httplib.h:5728-5771 | the fragments and names of the pattern, or the exception, exactly when a name is used twice |
| `PathParams.PatternRebuilt` | file_server/httplib.h:5728-5771 | fragments and names rebuild the pattern, up to one `/` after a parameter at its end; names hold no `/` and fragments no `:` |
| `Ranges.RangeError` | file_server/httplib.h:4884-4937 | refused if and only if there are too many ranges, or the normalized ones are not inside the content, ascending and with at most two overlaps; if accepted, the array holds the normalized ranges |
| `Ranges.AcceptableIff` | file_server/httplib.h:4916-4932 | acceptable are exactly: not too many ranges, inside the content, ascending, at most two of which start where an earlier one has not ended |
| `Ranges.DisjointAccepted` | file_server/httplib.h:4916-4932 | ascending ranges that do not overlap are never refused, up to the maximal count |
| `Ranges.TotalBounded` | file_server/httplib.h:4916-4932 | the accepted ranges together are at most three times the content |
| `Ranges.ServedBounded` | file_server/httplib.h:4963-4998 | the same of what the multipart body takes from the content, and every range in it meets the assertions |
| `RangeHeader.ParseRangeHeader` | file_server/httplib.h:4498-4545 | the ranges of the header up to the first bad one, and acceptance; every range has an end and its ends in order, and an accepted header has a range |
| `RangeTokens.AcceptedIff` | file_server/httplib.h:4498-4545 | a header is accepted with certain ranges if and only if it names the unit and its tokens, of which there is one at least, ask for just those: an end present, both in decimal, leading zeros allowed, 64 bits wide and in order |
| `RangeHeader.NormalizedMeans` | file_server/httplib.h:4900-4914 | a range from a header is never without both ends, and is rewritten to the positions it means, without overflow |
| `RangeHeader.MakeRangeHeader` | file_server/httplib.h:5400-5411 | the unit and the ranges, separated by a comma and a blank |
| `RangeHeader.HeaderRoundTrip` | file_server/httplib.h:4498-4545 | reading the header made for some ranges gives them back if and only if there are some and all are in order |
| `Ranges.LengthMatches` | file_server/httplib.h:5000-5032 | the length computed beforehand is the length of the body that is made |
| `Ranges.MakeData` | file_server/httplib.h:5000-5014 | the body is, for each range in order, the boundary line, the content type if there is one, the content range, an empty line and exactly the bytes of the range, and then the closing delimiter; its assertion holds |
| `Ranges.DataLength` | file_server/httplib.h:5016-5032 | the sum of what would be written |
| `Ranges.Process` | file_server/httplib.h:4963-4998 | the calls for all ranges and the closing delimiter, or those up to the first content refused; the assertions on each range hold |
| `QueryText.ParseUndoesWrite` | file_server/httplib.h:4423-4456 | parsing the query string of parameters with clean keys and any bytes as values gives the parameters with equal pairs merged |
| `QueryText.ParseUndoesWriteIff` | file_server/httplib.h:4423-4456 | the parameters themselves come back if and only if no pair occurs twice |
| `QueryText.RepeatedPairIsLost` | file_server/httplib.h:4437-4441 | an input that does not come back |
| `FormText.ParseForm` | file_server/httplib.h:4438-4456 | parsing enters every field into the multimap, however keys and values are encoded (escapes in either case, `+` for a blank, `%u`), and drops a field whose text has occurred before |
| `FormText.FormDecodes` | file_server/httplib.h:2613-2648 | decoding gives back what was encoded in any of these ways |
| `FormText.PercentStays` | file_server/httplib.h:2618-2636 | a percent sign without digits stays |
| `FormText.Utf8Means` | file_server/httplib.h:2442-2472 | a code point becomes its UTF-8 sequence (RFC 3629), and a surrogate nothing |
| `FormText.LessMeans` | file_server/httplib.h:432 | keys are ordered by their first difference |
| `QueryText.ParamsToQueryStr` | file_server/httplib.h:4423-4433 | the query string of all parameters |
| `QueryText.ParseQueryText` | file_server/httplib.h:4435-4456 | what the tokens of the text add to the parameters |
| `Url.DecodeInvertsEncode` | file_server/httplib.h:2560-2648 | decoding what was percent-encoded gives the bytes back |
| `Url.DecodeUrl` | file_server/httplib.h:2613-2648 | the text with its escapes replaced, malformed ones kept |
| `Url.EncodeQueryParam` | file_server/httplib.h:2560-2579 | the percent-encoding of the value |
| `Text.Split` | file_server/httplib.h:2712-2737 | the trimmed, non-empty pieces between separators, in order |
| `Text.TrimRange` | file_server/httplib.h:2668-2677 | where the blanks at both ends stop |
| `Base64.Encode` | file_server/httplib.h:2476-2502 | the encoding of the standard, although the accumulator wraps around |
| `Base64.RoundTrip` | file_server/httplib.h:2476-2502 | the length is four for every three bytes or part of them, and the standard's decoding gives the bytes back |
| `Base64.PaddingIs` | file_server/httplib.h:2495-2499 | exactly which symbols are padding |
| `PrefixFunction.CheckPrefixSuffix` | any/kmp.cpp:24-43 | every entry is the length of the longest proper prefix that is also a suffix, and the fall-backs together are at most as many as the characters |

## Left out

- LockFreeResults.MemorySafety: memory is sequentially consistent; a pop of the empty stack only gives back its count, because the source would hand a null node to the reclamation, whose non-null case is modelled; `th_in_pop` and `threads_in_pop` are taken for the same counter, which is a natural number (with fewer threads than its width can count it does not wrap).
- LockFreeResults.Linearizable: the other stacks of the file, which are unfinished or differ in their first lines, are not modelled.
- MultipartRoundTrip.RoundTrip: for receivers that accept; what a refusal does is `MultipartStreaming.RefusalStops`. Items must have clean header fields (no quote-breaking `;` or `=`, no line ends, trimmed content type), and contents must not contain the delimiter, as the format demands. The same holds of the other results on delivery.
- MultipartParser.MultipartFormDataParser.Parse: arbitrary text after the closing delimiter can bring the parser into further states; the model does what the code does, but no result is stated about such text.
- HttpClient.NeverFaults: the build without TLS; callbacks that send on the same client from inside a request, the destructor and moving a client are not modelled. Whether a peer is alive, connects or answers is left to the schedule, and a socket is named by its creation, not by a number the system may reuse.
- EventLoop.NoLostWakeup: `quit` is modelled, but not that it ends the loop promptly (it wakes the loop only from its own thread); timers, `runInLoop` and the contents of event handlers beyond queueing and quitting are left out.
- EpollPoller.EpollPoller.Replay: channels have distinct descriptors, as in one process; the kernel refuses nothing else.
- ThreadPool.ShutdownDrains: jobs accepted after shutdown has begun may be left in the queue, so nothing is stated about them; jobs return.
- FizzBuzz.PrintsInOrder: integers are unbounded; as the counter stays within n + 1, an `int` suffices unless n is its largest value.
- ParallelFind.AsyncFinds: comparing elements does not throw; a half that runs only when it is asked for is covered, as any schedule may delay it.
- ParallelFind.Accumulate: for integers and addition; the threads, which share nothing but read their own blocks, are run one after the other.
- Chunked.RoundTrip: without trailer fields, which the reader URL-decodes; `Chunked.ReadContentChunked` collects trailer lines as they are. No compressor.
- Chunked.ReadContentChunked: the receiver accepts everything; trailer lines are collected, not parsed.
- Chunked.ReadContentWithLength: the receiver and the progress callback, which may stop it, accept everything.
- Chunked.WriteContentChunked: no compressor, and no trailer fields after the end mark.
- Chunked.DataSink.Write: no compressor, so what is sent is what was written.
- Chunked.DataSink.Done: no trailer fields and no compressor.
- PathParams.Match: what the request's parameters hold after a failed match is not stated.
- PathParams.MatchIff: fragments without NUL, at which `strncmp` stops.
- Ranges.RangeError: positions are integers without a width; for ranges from a header 64 bits suffice (`RangeHeader.NormalizedMeans`).
- RangeHeader.ParseRangeHeader: the list of ranges is empty at the call, as in a new request; a header that is not accepted is answered with status 416, which is left out.
- Url.DecodeUrl: text is a sequence of bytes; no character encoding beyond the one for `%u`.
- Regular-expression routes, compression, TLS, sockets, files, timers, logging and all demonstration programs: foreign calls, or nothing to prove that a reader would not see at once.
- The incorrect `KMP` class next to the prefix function, and the thread pool that does not compile.
