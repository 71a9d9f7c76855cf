# Models of the concurrent, streaming and pointer code of linux_work

The project models the parts of the repository whose correctness does not show from
one function body, and proves what they are for.

- **Concurrent protocols** (`RingQueue`, `WorkerPool`): the semaphore ring and the
  two worker pools as transition systems over any number of threads, in which each
  lock, semaphore and condition-variable operation and each memory access between
  them is one atomic step. A class beside each system carries the fields of the
  source and is proved to take exactly these steps.
- **Time wheel** (`TimeWheel`): the 60-slot wheel with counted references; a task
  fires when its last reference is dropped.
- **Streams and codecs of httplib** (`Multipart`, `MultipartChunks`,
  `MultipartIndependence`, `MultipartRoundTrip`, `MultipartSync`, `MultipartParser`,
  `MultipartHeaders`, `Streams`, `ChunkedCoding`, `ChunkedGrammar`, `PathParams`,
  `Ranges`, `QueryStrings`, `Base64`, and `HttpText`, `TextLoops` and `TextLaws` for the
  text functions that they share, their loops and what they mean).
  A stream is an arbitrary sequence of answers of recv and send.
- **Pointers and buffers** (`LinkedList`, `SlidingBuffer`): the circular list with
  its iterators, and the sliding network buffer.
- **Binary formats** (`Bundle`, `Framing`, `Numbers`): the compressed container
  around abstract codecs, and the calculator's frames.

Characters are bytes: a `string` whose characters are below 256 where that matters.
Integers are unbounded except where the source's width matters, and there the wrap
or the cut is written out: the 32-bit sums of the time wheel, the accumulator of
base64, the 64-bit varints, `atoi`, `strtoul` and the frame length.

## What the proofs found

Where the code does not do what its callers may expect, the exact condition is
proved, or a lemma shows the input.

- `TimeWheel.WaitIsTimeout`: a timeout of 0 or above 60 does not mean that many ticks.
  `RefreshOfCancelled`: Refresh of a cancelled task that is gone dereferences a null
  pointer; `RunFaults` says exactly which operations do, and `CarefulNeverFaults` gives
  callers a rule that keeps them from it. The removal of a timer erases while it iterates
  (my_muduo/source/timewheel.hpp:68-80); the model takes it as removal from the map.
- `WorkerPool.ShutdownDrains`, `LateEnqueue`, `OrphanStays`: a job queued after the
  workers have gone is accepted and never run. `ShutdownFinishes` is the form for
  callers: with a worker and no job accepted after shutdown was called, all jobs end.
- The header-line limit of the multipart parser is checked only against what is
  buffered when the header state is entered (Httplib/httplib.h:4773-4774), so whether
  a long line is refused depends on the chunks: `MultipartIndependence.CutCanDecide`
  gives the input, `ChunksDoNotMatter` the exact condition.
- `MultipartSync.RoundTripExactly`: an opening delimiter line that arrives in two
  pieces is lost, and with it the round trip, always. `MultipartRoundTrip.NoItems`: a
  body without items is never valid.
- `ChunkedCoding.ArrivesExactly`: a shutdown between two calls of the provider, or a call
  that ends with an empty piece, cuts the message off, and the writer reports success;
  in all other cases it arrives whole. `TooLong`: a piece of ULONG_MAX bytes or more is
  refused.
- `SlidingBuffer.Buffer.WriteAndPushSelf`: writing a buffer to itself is proved to work
  where the bytes at the old place are still the readable ones (kept, or moved with an
  intact old copy). Where they are moved over themselves, they differ from the readable
  ones but for a repetition (`MovedSource`); where the block grows, the old one is freed.
- `Bundle.RawIsCopied`, `CopyRestored`, `RepackedLosesALayer`: RAW never packs, and a
  copy of something that looks packed need not unpack to itself; when it does, whatever
  the codecs, is proved exactly.
- `Framing.UnframeFrame`: the content may carry bytes behind the payload
  (protocol/protocol.hpp:44); `RequestStream` shows that requests read back all the
  same. `StallsExactly`: a length such as -4 is reported as a frame that takes nothing
  off, so that a loop over the buffer does not end; the exact condition is given.
- `MultipartHeaders.StopsBehindDelimiter`: other bytes than a line break or two dashes
  behind a delimiter stop the parser for good without a refusal.

## Model

| member | source | states |
|---|---|---|
| `RingQueue.Safety` | thread/semaphore/sem.hpp:42-83 | in every state of every run of any number of producers and consumers: what was consumed is a prefix of what the scheduled pushes handed over, unread items lie unharmed in their slots, semaphore units plus threads on their way equal the capacity, and no step is undefined behaviour |
| `RingQueue.ProducedIsPushed` | thread/semaphore/sem.hpp:70-76 | what has been produced is, in order, the data of the scheduled push steps that write |
| `RingQueue.Exclusion` | thread/semaphore/sem.hpp:56-83 | at most one producer and one consumer are in their critical sections, and when one of each is about to touch a slot the slots differ |
| `RingQueue.NoDeadlock` | thread/semaphore/sem.hpp:30-83 | with capacity at least 1 and a thread of each kind, every reachable state has a thread that can step without fault |
| `RingQueue.PushWaits` | thread/semaphore/sem.hpp:70-83 | a producer outside waits only for room, counting the threads on their way to a slot or back; then only for the other producers; then for nobody |
| `RingQueue.PopWaits` | thread/semaphore/sem.hpp:56-68 | the same for a consumer, which waits for items |
| `RingQueue.ItemConsumed` | thread/semaphore/sem.hpp:56-83 | no livelock: whichever runnable threads are scheduled, an item is consumed within a stated number of steps |
| `RingQueue.NoFault` | thread/semaphore/sem.hpp:60-62 | the invariant rules out a slot index outside the vector and a remainder by zero |
| `RingQueue.RunInv` | thread/semaphore/sem.hpp:56-83 | the invariant survives any schedule |
| `RingQueue.PushKeepsInv` | thread/semaphore/sem.hpp:70-83 | every step of push, at any point in it, keeps the invariant |
| `RingQueue.PopKeepsInv` | thread/semaphore/sem.hpp:56-68 | every step of pop, at any point in it, keeps the invariant |
| `RingQueue.SlotIsMod` | thread/semaphore/sem.hpp:61-62 | cursors that wrap by remainder name the slot index modulo the capacity |
| `RingQueue.SlotWindow` | thread/semaphore/sem.hpp:61-62 | indices closer than the capacity have different slots |
| `RingQueue.Ring.constructor` | thread/semaphore/sem.hpp:42-54 | the object starts in the initial state: empty, all units with the producers |
| `RingQueue.Ring.Push` | thread/semaphore/sem.hpp:70-83 | one atomic step of a producer is the step of the transition system, which with `RingQueue.ProducedIsPushed` stores the data it is given, and blocks exactly when that cannot step |
| `RingQueue.Ring.Pop` | thread/semaphore/sem.hpp:56-68 | the same for a consumer; the item handed out is the one added to the consumed sequence |
| `TimeWheel.FiresExactlyOnTime` | my_muduo/source/timewheel.hpp:29-36 | the timer law over whole runs without undefined behaviour: after its last add or refresh with a timeout in 1..60 a task lives for timeout - 1 ticks with no callback, and from tick `timeout` on it is gone with its callback run once, or never if cancelled |
| `TimeWheel.CarefulFiresOnTime` | my_muduo/source/timewheel.hpp:86-131 | the same for any operations with timeouts in 1..60 that refresh no identifier after its cancellation, unless a new task has taken it |
| `TimeWheel.CarefulNeverFaults` | my_muduo/source/timewheel.hpp:97-125 | such operations never reach undefined behaviour |
| `TimeWheel.RunFaults` | my_muduo/source/timewheel.hpp:97-110 | over whole runs: undefined behaviour is reached if and only if some operation refreshes an identifier whose countdown is over or cannot be placed |
| `TimeWheel.RefreshOfCancelled` | my_muduo/source/timewheel.hpp:105-108 | the input: add with timeout 1, cancel, tick and refresh of one identifier reach the null pointer |
| `TimeWheel.RunRefines` | my_muduo/source/timewheel.hpp:29-131 | after any operations the hand, slots and references show exactly what countdowns that know nothing of each other show, timer map and faults included, and the callbacks that have run are those of the countdowns that are over and not cancelled |
| `TimeWheel.TickTimers` | my_muduo/source/timewheel.hpp:68-80 | an identifier leaves the timer map with a tick if and only if a task of it fires on that tick |
| `TimeWheel.CancelledNeverFires` | my_muduo/source/timewheel.hpp:112-125 | a live task that is cancelled never fires, whatever operations follow |
| `TimeWheel.FiredOnce` | my_muduo/source/timewheel.hpp:29-36 | in every run a callback has run at most once, never while references remain, and exactly once when the last is gone unless cancelled |
| `TimeWheel.Countdown` | my_muduo/source/timewheel.hpp:127-131 | the time to the last reference falls by one per tick until something touches the task |
| `TimeWheel.RemainingIffAlive` | my_muduo/source/timewheel.hpp:97-110 | a task is alive if and only if some slot refers to it if and only if its remaining time is positive |
| `TimeWheel.WaitIsTimeout` | my_muduo/source/timewheel.hpp:90-92 | the slots of TaskAdd, with the 32-bit wrap of the sum, and of Refresh, where it finds one, are `timeout` ticks ahead if and only if the timeout is in 1..60, and for those Refresh finds one |
| `TimeWheel.SlotMeans` | my_muduo/source/timewheel.hpp:90-107 | which slot any other timeout gets: that of the wrapped sum modulo 60 on adding; on refreshing that of the signed sum, or none if it overflows or is negative and no multiple of 60 |
| `TimeWheel.RefreshFaults` | my_muduo/source/timewheel.hpp:105-108 | in one state: Refresh faults if and only if the identifier belongs to a cancelled task already destroyed, or the signed position is negative |
| `TimeWheel.ApplyKeepsInv` | my_muduo/source/timewheel.hpp:86-131 | every operation keeps: reference counts are the references in the slots, and the map names tasks of that identifier that are alive or cancelled |
| `TimeWheel.TickKeepsInv` | my_muduo/source/timewheel.hpp:127-131 | clearing a slot drops each reference in it, and exactly the tasks with none left end |
| `TimeWheel.ApplyTask` | my_muduo/source/timewheel.hpp:86-131 | only a touch gives a task time, only a tick takes time, and firing is on the tick that takes the last |
| `TimeWheel.TouchSetsRemaining` | my_muduo/source/timewheel.hpp:86-110 | adding or refreshing sets the remaining time to the timeout |
| `TimeWheel.Wheel.constructor` | my_muduo/source/timewheel.hpp:83-83 | an empty wheel of 60 slots, hand at 0 |
| `TimeWheel.Wheel.TaskAdd` | my_muduo/source/timewheel.hpp:86-95 | the object's state follows the specification of TaskAdd |
| `TimeWheel.Wheel.RefreshTimer` | my_muduo/source/timewheel.hpp:97-110 | the object's state follows the specification of Refresh, faults included |
| `TimeWheel.Wheel.TimerCancel` | my_muduo/source/timewheel.hpp:112-125 | the object's state follows the specification of TimerCancel |
| `TimeWheel.Wheel.RunTimeTask` | my_muduo/source/timewheel.hpp:127-131 | moving the hand and clearing the slot, one destructor after the other, is the specified tick |
| `TimeWheel.Wheel.Release` | my_muduo/source/timewheel.hpp:29-36 | dropping one reference; with the last one the callback runs unless cancelled and the map entry goes |
| `WorkerPool.FifoExactlyOnce` | Httplib/httplib.h:760-809 | in every state of every run: the accepted jobs are those offered while there was room, in order; they are taken first in, first out; each taken job is with one worker, which runs that very job, or has ended once; the limit on queued jobs is kept |
| `WorkerPool.AcceptedIsOffered` | Httplib/httplib.h:760-771 | the accepted jobs are, in order, the jobs of the calls of enqueue that come to the queue while it is below a positive limit, or without a limit |
| `WorkerPool.HoldingIsOffered` | Httplib/httplib.h:760-766 | a caller inside enqueue holds the job that it has offered last |
| `WorkerPool.FinishedIsEnded` | Httplib/httplib.h:803-805 | the jobs recorded as ended are those of the scheduled steps with which workers finish, in order |
| `WorkerPool.NoLostWakeup` | Httplib/httplib.h:798-799 | with jobs queued, a notification is pending or some worker is neither blocked nor gone, unless a job came after all workers had gone |
| `WorkerPool.PoolWaits` | Httplib/httplib.h:760-809 | whom every thread waits for in every state of every run: to lock, only for whoever is inside a critical section; a blocked worker for a notification; shutdown for the worker it joins |
| `WorkerPool.ShutdownDrains` | Httplib/httplib.h:773-786 | when shutdown returns all workers are gone, and every accepted job has ended exactly once if and only if none was queued after the workers had gone |
| `WorkerPool.ShutdownFinishes` | Httplib/httplib.h:760-786 | with at least one worker and no job accepted after shutdown was called, every accepted job has ended exactly once when shutdown returns |
| `WorkerPool.AcceptedInTime` | Httplib/httplib.h:801-801 | a job that is accepted before shutdown is called is not orphaned, since workers leave only when shutdown is set |
| `WorkerPool.LateEnqueue` | Httplib/httplib.h:760-771 | an enqueue after the workers have gone is accepted all the same |
| `WorkerPool.OrphanStays` | Httplib/httplib.h:760-771 | such a job is never taken |
| `WorkerPool.InternalWorks` | Httplib/httplib.h:792-809 | every internal step lowers a bound on the internal steps to come |
| `WorkerPool.InternalRunEnds` | Httplib/httplib.h:792-809 | so the pool comes to rest under any scheduling |
| `WorkerPool.RestMeansDone` | Httplib/httplib.h:760-809 | at rest every accepted job has ended once, but for late ones, and a shutdown that was called has returned |
| `WorkerPool.RunInv` | Httplib/httplib.h:760-809 | the invariant survives any schedule, spurious wakeups included |
| `WorkerPool.Pool.Enqueue` | Httplib/httplib.h:760-771 | the steps of enqueue, and its result: refused exactly when a positive number of jobs is the limit and that many are queued, and then unchanged; otherwise the offered job is queued behind the others |
| `WorkerPool.Pool.Shutdown` | Httplib/httplib.h:773-786 | the steps of shutdown |
| `WorkerPool.Pool.WorkerLoop` | socket/TCP/ThreadPool.hpp:47-66 | the steps of the worker loop, shared by both pools |
| `WorkerPool.ClientWakeup` | socket/TCP/ThreadPool.hpp:79-86 | the step that queues a job, and the signal, lose no wakeup: a waiting worker is woken if there is one |
| `WorkerPool.NextWakeup` | socket/TCP/ThreadPool.hpp:47-86 | no step loses a wakeup, whether the signal is sent under the lock (this pool) or after it (httplib) |
| `MultipartSync.RoundTripExactly` | Httplib/httplib.h:4752-4887 | for serialized items and any chunks: the parse refuses nothing, ends valid and reports exactly the items if and only if the first chunk that is not empty holds the opening delimiter line |
| `MultipartSync.FeedAllAstray` | Httplib/httplib.h:4752-4887 | a parser that has missed the opening delimiter line and synchronises later never comes to report the items, however the rest is cut, epilogue included |
| `MultipartSync.OpeningIsLate` | Httplib/httplib.h:4759-4764 | where else an opening delimiter line can be found: behind the beginning of the first content, or with the first Content-Type line |
| `MultipartSync.DelimiterIsLate` | Httplib/httplib.h:4845-4852 | past the end of one content, a delimiter ends only behind the beginning of the next content, and behind the last content there is none |
| `MultipartSync.DriveAstray` | Httplib/httplib.h:4757-4884 | one call keeps such a parser behind the beginning of each content, or what it has reported cannot become the items |
| `MultipartRoundTrip.RoundTrip` | Httplib/httplib.h:4752-4887 | parsing the serialized items, in any chunks of which the first holds the opening delimiter line, refuses nothing, ends valid and reports exactly the items in order |
| `MultipartRoundTrip.DriveItems` | Httplib/httplib.h:5054-5066 | any items in front of any text are all reported, each with its name, file name, type and content |
| `MultipartRoundTrip.EarlyIsOpen` | Httplib/httplib.h:4873-4876 | no less than all of the closing delimiter ends the body |
| `MultipartRoundTrip.Epilogue` | Httplib/httplib.h:4873-4876 | the CRLF after the closing delimiter changes nothing that was reported |
| `MultipartRoundTrip.OpeningLost` | Httplib/httplib.h:4759-4761 | a chunk without the whole opening delimiter line is dropped as if it had never come, while the parser looks for that line |
| `MultipartRoundTrip.NoItems` | Httplib/httplib.h:4759-4762 | why there must be an item: the serialization of no items, however cut, is not refused, but does not make the parser valid |
| `MultipartRoundTrip.SerializeItemBegin` | Httplib/httplib.h:5023-5039 | the serializer's text of an item is the delimiter line and the header block |
| `MultipartRoundTrip.SerializeMultipartFormdata` | Httplib/httplib.h:5053-5066 | the serializer's text of all items, with the closing delimiter |
| `MultipartIndependence.ChunksDoNotMatter` | Httplib/httplib.h:4752-4887 | behind the opening delimiter, for any text that does not close before its end: if each complete header line is shorter than the limit and accepted, and a pending one does not exceed it, every way of cutting gives the same state, items and rest; and otherwise the text is refused byte by byte |
| `MultipartIndependence.ChunksAgree` | Httplib/httplib.h:4755-4757 | the same for chunks of which only the last may complete the closing delimiter |
| `MultipartIndependence.WillFit` | Httplib/httplib.h:4772-4774 | if all is well when the rest has come, the length check of the source, which sees only what is buffered, refuses nothing now |
| `MultipartIndependence.BytesDecide` | Httplib/httplib.h:4772-4774 | a text that is not refused byte by byte has no header line of the limit or more |
| `MultipartIndependence.CutCanDecide` | Httplib/httplib.h:4773-4774 | there are two header lines that go through in one chunk and are refused when cut between them |
| `MultipartIndependence.CutDecides` | Httplib/httplib.h:4773-4774 | any accepted short line followed by an accepted line above the limit is such a pair |
| `MultipartIndependence.ClosingDiscards` | Httplib/httplib.h:4873-4876 | the closing delimiter discards whatever else is buffered |
| `MultipartChunks.DriveExtend` | Httplib/httplib.h:4755-4757 | one call with x and then one with y, or one with both: the same result, as long as the first does not see the closing delimiter |
| `MultipartChunks.BodyContent` | Httplib/httplib.h:4843-4865 | in the body state, for any bytes with a delimiter and any chunks: the content is exactly the bytes before the first one, and the parser goes on right behind it and then with the chunks that follow, whatever they make it do |
| `MultipartChunks.BodyContentFound` | Httplib/httplib.h:4843-4852 | the same with the chunk that completes the delimiter given |
| `MultipartChunks.BodyContentNone` | Httplib/httplib.h:4853-4863 | without a delimiter, however the bytes are cut, all but the last few are content, and those few are kept |
| `MultipartChunks.StepExtend` | Httplib/httplib.h:4757-4884 | a pass that goes on does the same with more text behind the buffer |
| `MultipartChunks.StopExtend` | Httplib/httplib.h:4840-4879 | where the loop stops for want of text, it is as if it had not begun |
| `MultipartChunks.BodyStops` | Httplib/httplib.h:4844-4863 | the body state with and without a delimiter in the buffer |
| `MultipartParser.MultipartFormDataParser.Parse` | Httplib/httplib.h:4752-4887 | the in-place parser refuses exactly when the specification does and otherwise agrees with it in state, items and buffer |
| `MultipartParser.MultipartFormDataParser.Pass` | Httplib/httplib.h:4758-4882 | one pass through the switch is one step of the specification |
| `MultipartParser.MultipartFormDataParser.BufAppend` | Httplib/httplib.h:4960-4976 | compaction and copying in place append to the buffered text |
| `MultipartParser.MultipartFormDataParser.BufFind` | Httplib/httplib.h:4937-4958 | the first occurrence, or the number of buffered bytes |
| `MultipartParser.MultipartFormDataParser.BufErase` | Httplib/httplib.h:4978-4978 | the first n buffered bytes go |
| `MultipartParser.MultipartFormDataParser.HeaderLine` | Httplib/httplib.h:4787-4837 | one header line, through the loops of parse_header, the prefix test, trimming and the parameters: what it does to the description of the item, and when it is refused (in terms of characters: `MultipartHeaders`) |
| `MultipartParser.MultipartFormDataParser.DispositionLine` | Httplib/httplib.h:4806-4835 | the lookups of name, filename and filename*, and when they refuse |
| `MultipartParser.ParseDispositionParams` | Httplib/httplib.h:4665-4687 | the parameters of the pieces not seen before: key, and the last value |
| `TextLoops.ParseHeader` | Httplib/httplib.h:4059-4105 | the loops decide whether the line is a header field |
| `TextLoops.StartWithCaseIgnore` | Httplib/httplib.h:4896-4905 | a prefix, but for the case of letters, which `TextLaws.StartsMeans` says in terms of characters |
| `MultipartParser.MultipartFormDataParser.HeaderLoop` | Httplib/httplib.h:4775-4839 | the loop over the complete header lines agrees with the specification, the item limit included |
| `MultipartParser.MultipartFormDataParser.BodyBytes` | Httplib/httplib.h:4843-4865 | the body state in place |
| `MultipartParser.MultipartFormDataParser.BoundaryEnd` | Httplib/httplib.h:4866-4881 | the state behind a delimiter, in place |
| `MultipartParser.MultipartFormDataParser.constructor` | Httplib/httplib.h:4742-4748 | a new parser: state 0, nothing buffered, not valid |
| `MultipartHeaders.TypeField` | Httplib/httplib.h:4796-4799 | Content-Type in any case sets the type to the value without blanks around it |
| `MultipartHeaders.FormDataField` | Httplib/httplib.h:4801-4809 | Content-Disposition in any case, white space or not, form-data in any case: what is left is read as the parameters |
| `MultipartHeaders.OtherDisposition` | Httplib/httplib.h:4801-4807 | another disposition than form-data is passed over |
| `MultipartHeaders.OtherField` | Httplib/httplib.h:4796-4806 | every other field name leaves what is known of the item alone |
| `MultipartHeaders.NamesInAnyCase` | Httplib/httplib.h:4801-4820 | the names that the serializer writes are read whatever the case of the words around them |
| `MultipartHeaders.PieceMeans` | Httplib/httplib.h:4668-4685 | a parameter: what is in front of the first = and behind the last, trimmed and unquoted, whatever is between |
| `MultipartHeaders.PieceWithoutValue` | Httplib/httplib.h:4668-4685 | a parameter without a value has the empty one |
| `MultipartHeaders.MorePieces` | Httplib/httplib.h:4669-4672 | each further parameter counts unless its very text has come before |
| `MultipartHeaders.QuotesMean` | Httplib/httplib.h:2770-2775 | quotes around a value go, and only in pairs |
| `MultipartHeaders.LookupMeans` | Httplib/httplib.h:4811-4820 | the value found for a key is that of its first occurrence |
| `MultipartHeaders.NamesMean` | Httplib/httplib.h:4811-4833 | refused without a name or with an extended file name that is not UTF-8 and something; an extended file name is decoded and goes before the plain one |
| `MultipartHeaders.WithinLimit` | Httplib/httplib.h:6478-6497 | for any text in any chunks, no more items are reported than the limit allows |
| `MultipartHeaders.PreambleSkipped` | Httplib/httplib.h:4759-4764 | whatever is in front of the opening delimiter line changes nothing |
| `MultipartHeaders.StopsBehindDelimiter` | Httplib/httplib.h:4866-4881 | a delimiter followed by neither a line break nor two dashes stops the parser for good, whatever comes |
| `TextLaws.LowerMeans` | Httplib/httplib.h:340-367 | to_lower tells apart exactly what is not the same Latin-1 letter |
| `TextLaws.StartsMeans` | Httplib/httplib.h:4896-4905 | a prefix up to the case of letters, character by character |
| `TextLaws.SkipWhite` | Httplib/httplib.h:4803-4804 | white space is the space and the characters 9 to 13 |
| `TextLaws.TrimMeans` | Httplib/httplib.h:2754-2768 | spaces and tabs around a text go, and nothing else |
| `TextLaws.SplitSnoc` | Httplib/httplib.h:2803-2823 | the last piece is what is behind the last delimiter |
| `TextLaws.HeaderMeans` | Httplib/httplib.h:4059-4105 | a line is a header field if and only if there is a name in front of its first colon, something but blanks behind it, and no CR, LF or NUL in that once decoded, which Location is not |
| `TextLaws.NoColonNoHeader` | Httplib/httplib.h:4065-4069 | no colon, no header field |
| `TextLaws.HexValueMeans` | Httplib/httplib.h:2491-2503 | the hexadecimal digits, in both cases |
| `TextLaws.DecodeEscaped` | Httplib/httplib.h:2718-2727 | an escape of two digits stands for that octet |
| `TextLaws.DecodeUnicode` | Httplib/httplib.h:2704-2716 | an escape of u and four digits stands for the UTF-8 form of that code point |
| `TextLaws.DecodeOther` | Httplib/httplib.h:2699-2734 | a percent sign that begins no escape stays, as does every other character but the plus sign of a form, which stands for a space |
| `TextLaws.Utf8RoundTrip` | Httplib/httplib.h:2532-2556 | a reader of UTF-8 gets every code point below 0x10000 back; surrogates have no octets |
| `HttpText.PlainHeader` | Httplib/httplib.h:4059-4105 | a trimmed field is accepted by parse_header if and only if its decoded value has no CR, LF or NUL |
| `HttpText.BreakStays` | Httplib/httplib.h:2699-2734 | decoding keeps every raw CR, LF and NUL, so that guard covers them |
| `HttpText.FindFrom` | Httplib/httplib.h:4937-4958 | what the first occurrence is: an occurrence with none before it |
| `Streams.SocketStream.Read` | Httplib/httplib.h:5824-5868 | what is delivered, followed by what is still to come, is what was to come before: nothing lost, doubled or reordered, for any request size and answer of recv |
| `Streams.SocketStream.ReadBuffered` | Httplib/httplib.h:5833-5844 | reading from the buffer moves its offset and delivers those bytes |
| `Streams.SocketStream.ReadThrough` | Httplib/httplib.h:5851-5864 | reading through the buffer delivers what was asked for and keeps the rest |
| `Streams.LineReader.Getline` | Httplib/httplib.h:2851-2884 | the line is the stream up to and with its first CRLF and the stream goes on behind it, whether or not the line spills into the growable buffer |
| `Streams.LineReader.AppendByte` | Httplib/httplib.h:2886-2897 | a byte is appended to the line, in either buffer |
| `Streams.WriteStream.WriteData` | Httplib/httplib.h:4383-4391 | all of the data in as many sends as it takes, those that take nothing included; after a failure, some beginning of it |
| `Streams.ReceivedMeans` | Httplib/httplib.h:5824-5868 | the modelled recv can hand over any number of bytes up to what was asked for |
| `ChunkedCoding.RoundTrip` | Httplib/httplib.h:4194-4258 | for all non-empty pieces and any bytes behind: the reader delivers the concatenation and leaves exactly those bytes |
| `ChunkedCoding.Transfer` | Httplib/httplib.h:4194-4258 | the same through the two streams, for any calls and shutdown and however writes and reads are fragmented: the transfer succeeds exactly when the loop comes to its end, and then gives the concatenation |
| `ChunkedCoding.ArrivesExactly` | Httplib/httplib.h:4474-4577 | for any pieces in any calls: the reader gets back the concatenation if and only if the server does not shut down in between and no call ends with an empty piece; otherwise it refuses, and the writer has reported success all the same |
| `ChunkedCoding.GroupingDoesNotMatter` | Httplib/httplib.h:4562-4573 | however pieces are handed over, several or none in a call of the provider and empty ones among them, those that are not empty are sent one chunk each and then the last chunk, if the loop comes to its end |
| `ChunkedCoding.HexRoundTrip` | Httplib/httplib.h:2522-2530 | strtoul reads back the hexadecimal size, saturating above ULONG_MAX |
| `ChunkedCoding.TooLong` | Httplib/httplib.h:4211-4211 | sizes from ULONG_MAX on are refused, so the bound of the law is exact |
| `ChunkedCoding.ReadContentChunked` | Httplib/httplib.h:4194-4258 | on a stream that delivers, the result, content, trailers and rest are the specified function of the bytes; where reads fail, a result that is ok still has the whole body, and trailers only if they are all there |
| `ChunkedCoding.ReadContentWithLength` | Httplib/httplib.h:4146-4166 | exactly the first len bytes, in any fragments; refused exactly when there are fewer |
| `ChunkedCoding.WriteContentChunked` | Httplib/httplib.h:4474-4577 | for any acts of the provider, refusals and a shutdown included: success exactly as specified, and then the bytes sent are those produced; after a failed write, a beginning of them and perhaps some of the last CRLF, which is tried even then |
| `ChunkedCoding.RunActs` | Httplib/httplib.h:4483-4558 | the same for one call of the provider |
| `ChunkedCoding.FromIToHex` | Httplib/httplib.h:2522-2530 | the digits of the size |
| `ChunkedGrammar.ReadMessage` | Httplib/httplib.h:4194-4258 | every message of the grammar of RFC 9112 section 7.1 is read: sizes with leading zeros in either case, any chunk extensions, any trailer lines that are not too long, and any bytes behind are left |
| `ChunkedGrammar.NumberMeans` | Httplib/httplib.h:4207-4209 | what strtoul reads: white space, a sign, the prefix 0x, digits and anything behind; saturated at ULONG_MAX, wrapped for a minus sign |
| `ChunkedGrammar.NoNumber` | Httplib/httplib.h:4207-4210 | a size line without a digit is no number |
| `ChunkedGrammar.LineMeans` | Httplib/httplib.h:2851-2884 | a line ends at the first CRLF and not at a CR or LF alone |
| `ChunkedGrammar.DataUnended` | Httplib/httplib.h:4219-4221 | refused when no line end follows the data of a chunk |
| `ChunkedGrammar.TrailerTooLong` | Httplib/httplib.h:4244-4245 | refused when a trailer line is longer than 8192 bytes |
| `ChunkedGrammar.EndMissing` | Httplib/httplib.h:4241-4255 | a stream may end behind the last chunk, but not behind trailers |
| `ChunkedGrammar.WriterEnds` | Httplib/httplib.h:4562-4577 | where the writer ends, what it has sent and what it reports: at a shutdown, behind a refused call (the only failure), behind a call that ends with an empty piece or done, or with the last chunk |
| `ChunkedGrammar.WriterReaches` | Httplib/httplib.h:4562-4577 | every run of the writer ends in one of these ways |
| `ChunkedGrammar.DoneCompletes` | Httplib/httplib.h:4520-4556 | a provider that calls done itself completes the message as well |
| `PathParams.MatchIff` | Httplib/httplib.h:5971-6012 | a path matches and yields these values if and only if they are slash-free, one per parameter, and the pattern with them substituted is the path, up to one slash at the end where the pattern ends in a parameter |
| `PathParams.RouteLaw` | Httplib/httplib.h:5923-6012 | the same for a pattern put together from texts and names: a path matches and yields the values if and only if it is these texts with the values in place of the names, up to that slash |
| `PathParams.BuildMeans` | Httplib/httplib.h:5923-5969 | the names, the ending and the substitution of such a pattern are those of its parts |
| `PathParams.SameUpToMeans` | Httplib/httplib.h:5987-5990 | strncmp decides equality, or stops at a NUL that both have |
| `PathParams.MatchRest` | Httplib/httplib.h:5978-6009 | the same for what remains of pattern and path behind a parameter |
| `PathParams.CaptureStep` | Httplib/httplib.h:5981-6008 | one parameter: the text before the marker must match, the value goes up to the next slash, the rest must match the rest |
| `PathParams.CaptureEnd` | Httplib/httplib.h:5996-6011 | a pattern without parameters matches itself, or nothing against one slash behind a parameter |
| `PathParams.FragmentMatches` | Httplib/httplib.h:5987-5990 | strncmp on a fragment decides whether the path begins like the pattern |
| `PathParams.CompilePattern` | Httplib/httplib.h:5923-5969 | the compiled names and fragments are those of the pattern; it is refused exactly when a name repeats |
| `PathParams.NextParameter` | Httplib/httplib.h:5938-5963 | one turn of that loop cuts the pattern at its first marker |
| `PathParams.MatchFragments` | Httplib/httplib.h:5971-6012 | the loop captures exactly what the specification does and binds each value to its name and nothing else |
| `PathParams.PathParamsMatcher.constructor` | Httplib/httplib.h:5923-5969 | the same for the object |
| `PathParams.PathParamsMatcher.Match` | Httplib/httplib.h:5971-6012 | the same for the object |
| `Ranges.AtMostThrice` | Httplib/httplib.h:5109-5113 | accepted ranges are together at most three times the content |
| `Ranges.ResponseBound` | Httplib/httplib.h:5147-5182 | and so is the content in the multipart response |
| `Ranges.AnnouncedLength` | Httplib/httplib.h:5200-5216 | the announced length of the multipart response is the number of bytes produced |
| `Ranges.CountIsLength` | Httplib/httplib.h:5184-5216 | counting tokens and producing them agree |
| `Ranges.RangeError` | Httplib/httplib.h:5068-5121 | refused if and only if there are more than 1024 ranges or the normalised ranges are not all within the content, strictly ascending and at most twice overlapping; accepted ranges are left in place as the positions that the request means: from a first one to the end, the last so many, or as given |
| `Ranges.NormalIsResolved` | Httplib/httplib.h:5084-5104 | filling in the open positions gives what the range means, and comes out of the content exactly when it means nothing there |
| `Ranges.AcceptableMeans` | Httplib/httplib.h:5084-5117 | acceptance in terms of what the ranges mean: all within the content, ascending, and no more than two that begin at or before the end of an earlier one |
| `Ranges.OverlapsMeans` | Httplib/httplib.h:5109-5113 | the loop counts the ranges that begin at or before the end of some earlier one |
| `Ranges.CheckRanges` | Httplib/httplib.h:5084-5117 | the loop decides that and normalises every range |
| `Ranges.JudgeMore` | Httplib/httplib.h:5100-5113 | one more range is acceptable exactly when the three tests pass |
| `Ranges.SuffixWithin` | Httplib/httplib.h:5093-5096 | a suffix range is within the content if and only if it asks for at least one byte and no more than there are |
| `Ranges.ProcessMultipartRanges` | Httplib/httplib.h:5147-5182 | the tokens handed to the callbacks, in order; both callers use them |
| `Ranges.ResponseIs` | Httplib/httplib.h:5123-5182 | the bytes of the response: each part names its first and last position and holds exactly these bytes of the content |
| `QueryStrings.EncodeRoundTrip` | Httplib/httplib.h:2646-2665 | every byte string survives encode_query_param and decode_url |
| `QueryStrings.QueryRoundTrip` | Httplib/httplib.h:4615-4648 | reading printed parameters gives exactly the distinct ones, in order |
| `QueryStrings.DistinctOnce` | Httplib/httplib.h:4629-4633 | what the distinct parameters are: each that occurs, once |
| `QueryStrings.PrintInjective` | Httplib/httplib.h:4632-4633 | different parameters are printed differently, so the cache drops only true repetitions |
| `QueryStrings.ReadPrinted` | Httplib/httplib.h:4635-4646 | a printed parameter reads back with its own value, and as itself if and only if decoding leaves its key alone |
| `HttpText.DecodePlain` | Httplib/httplib.h:2699-2734 | text without % and + is left alone by decoding |
| `QueryStrings.EncodeQueryParam` | Httplib/httplib.h:2646-2665 | the loop computes the encoding |
| `QueryStrings.EscapeMeans` | Httplib/httplib.h:2646-2665 | letters, digits and nine marks stay, every other byte becomes a percent sign and two capital digits |
| `TextLoops.DecodeUrlLoop` | Httplib/httplib.h:2699-2734 | the loop computes the decoding, malformed escapes included |
| `TextLoops.SplitLoop` | Httplib/httplib.h:2803-2823 | the pieces between delimiters, trimmed, without the empty ones, and no more segments than the limit |
| `TextLoops.SplitMostIsSplit` | Httplib/httplib.h:2798-2801 | a limit above the length of the text is none |
| `TextLoops.TrimRange` | Httplib/httplib.h:2754-2763 | what is left between spaces and tabs, or the ends pass each other if nothing is |
| `QueryStrings.ParamsToQueryStr` | Httplib/httplib.h:4615-4625 | the printed parameters, joined by & |
| `QueryStrings.ParseQueryText` | Httplib/httplib.h:4627-4648 | the parameters read from the pieces not seen before |
| `QueryStrings.ParsePiece` | Httplib/httplib.h:4635-4646 | one piece: key and value around the first =, decoded; nothing for an empty key |
| `QueryStrings.PieceMeans` | Httplib/httplib.h:4635-4646 | a piece without a key is passed over, one without = has the empty value |
| `HttpText.SplitCons` | Httplib/httplib.h:2803-2823 | what splitting means: the first piece, then the pieces behind the delimiter |
| `HttpText.SplitOne` | Httplib/httplib.h:2819-2822 | and without a delimiter, one piece or none |
| `TextLoops.TrimPadded` | Httplib/httplib.h:2754-2763 | what trimming means: blanks around a text that has none at its ends go |
| `Base64.Base64Encode` | Httplib/httplib.h:2566-2592 | the loop, with its 32-bit accumulator overflowing, computes the standard encoding |
| `Base64.DecodeEncode` | Httplib/httplib.h:2566-2592 | a strict decoder after RFC 4648 section 4 recovers every input |
| `Base64.EncodeDecode` | Httplib/httplib.h:2566-2592 | and accepts nothing but encodings |
| `Base64.EncodeLength` | Httplib/httplib.h:2589-2591 | four characters for every three octets begun |
| `Base64.EncodePadding` | Httplib/httplib.h:2589-2591 | as many = at the end as octets are missing, and none elsewhere |
| `Base64.DigitMeans` | Httplib/httplib.h:2567-2568 | the digits are the characters of the table |
| `Base64.CutDigits` | Httplib/httplib.h:2577-2583 | the digits cut out of the overflowed accumulator are those of the last two octets |
| `Base64.GroupsMean` | Httplib/httplib.h:2577-2583 | the four groups of six are the bits of the three octets in order |
| `Base64.LastDigit` | Httplib/httplib.h:2587-2587 | the last digit is filled up with zero bits |
| `Base64.PushByte` | Httplib/httplib.h:2577-2584 | what one octet adds |
| `LinkedList.RingInsert` | random_iterator/list.h:164-182 | linking a node in keeps next and prev mutually inverse and once around |
| `LinkedList.RingRemove` | random_iterator/list.h:184-198 | linking a node out keeps that too |
| `LinkedList.List.InsertBefore` | random_iterator/list.h:164-182 | a new node in front of a position; the abstract sequence gains the value there |
| `LinkedList.List.Erase` | random_iterator/list.h:184-198 | the node leaves ring and sequence, and the next one is returned |
| `LinkedList.List.PushBack` | random_iterator/list.h:149-152 | the sequence gains the value at its end |
| `LinkedList.List.PopBack` | random_iterator/list.h:154-157 | the sequence loses its last value |
| `LinkedList.List.PopFront` | random_iterator/list.h:159-162 | the sequence loses its first value |
| `LinkedList.List.constructor` | random_iterator/list.h:109-112 | an empty list |
| `LinkedList.List.Empty` | random_iterator/list.h:139-147 | a sentinel linked to itself |
| `LinkedList.List.Copy` | random_iterator/list.h:114-122 | the copy has the same sequence and shares no node |
| `LinkedList.List.Clear` | random_iterator/list.h:129-136 | the loop ends, with the empty sequence |
| `LinkedList.Traverse` | random_iterator/list.h:24-107 | from begin() to end() the iterator yields the sequence |
| `LinkedList.LinkIn` | random_iterator/list.h:172-176 | the four assignments of insert complete the ring |
| `LinkedList.LinkOut` | random_iterator/list.h:187-193 | the two assignments of erase complete the ring |
| `LinkedList.TraverseReverse` | random_iterator/reserve_iterator.h:18-34 | from end() to begin() the reverse iterator yields the reversed sequence |
| `LinkedList.ReverseAt` | random_iterator/reserve_iterator.h:18-34 | what reversing means, position by position |
| `LinkedList.ReverseIterator.Deref` | random_iterator/reserve_iterator.h:30-34 | dereferencing gives the element before the wrapped position |
| `LinkedList.ReverseIterator.Inc` | random_iterator/reserve_iterator.h:18-22 | incrementing moves the wrapped iterator back |
| `SlidingBuffer.RunRefines` | my_muduo/source/Buffer.hpp:47-169 | whatever is called in whatever order, the buffer answers like a plain queue of bytes, and its block stays within the larger of its first size and the largest readable + 2 * len - 1 of a write |
| `SlidingBuffer.FirstInFirstOut` | my_muduo/source/Buffer.hpp:47-163 | from a new buffer, bytes popped followed by bytes readable are the bytes pushed, unless it is cleared |
| `SlidingBuffer.RoomIsMade` | my_muduo/source/Buffer.hpp:47-67 | all three cases keep the readable bytes and make the room; the block grows exactly when the bytes would not fit anyhow |
| `SlidingBuffer.PushAppends` | my_muduo/source/Buffer.hpp:78-82 | a write appends to the readable bytes and bounds the growth |
| `SlidingBuffer.CallRefines` | my_muduo/source/Buffer.hpp:47-169 | one call keeps the buffer in step with the queue, failing assertions included |
| `SlidingBuffer.LineEnds` | my_muduo/source/Buffer.hpp:144-151 | a line ends at the first line feed; there is none only without a line feed |
| `SlidingBuffer.Buffer.constructor` | my_muduo/source/Buffer.hpp:22-22 | 1024 bytes, nothing readable |
| `SlidingBuffer.Buffer.EnsureWriteSpace` | my_muduo/source/Buffer.hpp:47-67 | in place: return, compaction or resize |
| `SlidingBuffer.Buffer.MoveToFront` | my_muduo/source/Buffer.hpp:54-61 | the overlapping copy moves the readable bytes to the front unharmed |
| `SlidingBuffer.Buffer.Write` | my_muduo/source/Buffer.hpp:69-76 | the bytes are stored behind the readable ones, which do not change |
| `SlidingBuffer.Buffer.WriteAndPush` | my_muduo/source/Buffer.hpp:78-93 | and become readable |
| `SlidingBuffer.Buffer.WriteAndPushBuffer` | my_muduo/source/Buffer.hpp:95-104 | the readable bytes of another buffer are appended; that buffer keeps them |
| `SlidingBuffer.Buffer.WriteAndPushSelf` | my_muduo/source/Buffer.hpp:95-104 | the buffer written to itself: its readable bytes are doubled where those at the old place are still the readable ones, kept or moved with an intact old copy; elsewhere nothing is promised |
| `SlidingBuffer.MovedSource` | my_muduo/source/Buffer.hpp:51-61 | where compaction moves the readable bytes over their old place, the bytes at that place are the readable ones if and only if these repeat with the distance moved as period |
| `SlidingBuffer.Buffer.Read` | my_muduo/source/Buffer.hpp:106-110 | the first bytes are copied out, the target unchanged behind them |
| `SlidingBuffer.Buffer.ReadAndPop` | my_muduo/source/Buffer.hpp:112-118 | and leave the buffer |
| `SlidingBuffer.Buffer.ReadAsStringAndPop` | my_muduo/source/Buffer.hpp:130-135 | the same as a string |
| `SlidingBuffer.Buffer.FindCRLF` | my_muduo/source/Buffer.hpp:137-141 | the first line feed |
| `SlidingBuffer.Buffer.GetLineAndPop` | my_muduo/source/Buffer.hpp:153-163 | pops through the first line feed, or nothing |
| `SlidingBuffer.Buffer.Clear` | my_muduo/source/Buffer.hpp:165-169 | nothing is readable |
| `Bundle.VlebitRoundTrip` | Lib/bundle-master/redist/bundle.cpp:609-617 | the varint decoder inverts the encoder for every 64-bit value with any bytes behind it, consuming exactly the encoding |
| `Bundle.EncVlebit` | Lib/bundle-master/redist/bundle.cpp:598-606 | the loop computes the encoding, in at most 10 bytes |
| `Bundle.DecVlebit` | Lib/bundle-master/redist/bundle.cpp:609-617 | the loop computes the value in 64 bits; it fails exactly at the end of the bytes or at a shift of 64 |
| `Bundle.DecodingMeans` | Lib/bundle-master/redist/bundle.cpp:609-617 | what any bytes are read as: the base-128 digits up to the first byte without the top bit, in 64 bits, if that is among the first ten, and otherwise nothing |
| `Bundle.EncodingLength` | Lib/bundle-master/redist/bundle.cpp:598-606 | a value below 2 to the 7k takes at most k bytes |
| `Bundle.CountPadding` | Lib/bundle-master/redist/bundle.cpp:620-625 | the zero bytes in front |
| `Bundle.PackedLooks` | Lib/bundle-master/redist/bundle.cpp:628-632 | what looks packed: zeros, 0x70 and a codec up to 23 |
| `Bundle.Compress` | Lib/bundle-master/redist/bundle.cpp:797-1048 | success means a known codec and a result that is smaller and not empty; when it succeeds is stated with `Bundle.Pack` |
| `Bundle.RawIsCopied` | Lib/bundle-master/redist/bundle.cpp:1045-1045 | so RAW never packs |
| `Bundle.PackRoundTrip` | Lib/bundle-master/redist/bundle.h:229-292 | with codecs whose decompress inverts compress, what was packed unpacks to the input; a copy that does not look packed unpacks to itself |
| `Bundle.CopyRestored` | Lib/bundle-master/redist/bundle.h:231-256 | exactly which copies unpack to themselves whatever the codecs do |
| `Bundle.RepackedLosesALayer` | Lib/bundle-master/redist/bundle.h:288-291 | a container that could not be packed again unpacks to what it contains |
| `Bundle.ContainerReads` | Lib/bundle-master/redist/bundle.h:281-286 | a container is recognised, its header read back, and its data handed to the codec whole |
| `Bundle.ContainerMeans` | Lib/bundle-master/redist/bundle.h:228-257 | what unpacking makes of any container, raw ones included, which overrun an output that is too small |
| `Bundle.HeaderFits` | Lib/bundle-master/redist/bundle.h:282-285 | the header takes at most 22 of the 32 bytes |
| `Bundle.Pack` | Lib/bundle-master/redist/bundle.h:260-292 | the container with its header right-aligned behind zeros, or the copy; it packs if and only if the codec is one of 1 to 23, its room suffices and, asked with that room, it gives something smaller and not empty; a packed result is less than 32 bytes longer than the input |
| `Bundle.Unpack` | Lib/bundle-master/redist/bundle.h:228-257 | the reader of such a container, or a copy |
| `Framing.StreamLaw` | protocol/protocol.hpp:16-48 | any payloads, framed and arriving in any pieces, are all taken off in order, one content each, with nothing left over |
| `Framing.UnframeFrame` | protocol/protocol.hpp:31-48 | exactly one frame comes off; the content begins with the payload and its line feed and may go on with bytes of what follows |
| `Framing.UnframePart` | protocol/protocol.hpp:31-42 | nothing is taken while the frame is not complete |
| `Framing.UnframeMeans` | protocol/protocol.hpp:31-48 | what is taken off any buffer, malformed and negative lengths included |
| `Framing.NoLineNoFrame` | protocol/protocol.hpp:33-35 | nothing is taken without a line feed |
| `Framing.StallsExactly` | protocol/protocol.hpp:38-46 | success without taking anything off, exactly when the number is the negative of its own length and two |
| `Framing.MinusFour` | protocol/protocol.hpp:38-46 | -4 is such a number |
| `Framing.DrainStream` | protocol/protocol.hpp:31-48 | draining a buffer takes off every complete frame |
| `Framing.RequestStream` | protocol/protocol.hpp:60-109 | printed requests, framed one after the other and arriving in any pieces, are all taken off, and each content reads back as its request |
| `Framing.FrameAhead` | protocol/protocol.hpp:16-28 | the frame of a request begins with no space in its first three bytes |
| `Framing.RequestLaw` | protocol/protocol.hpp:60-109 | the content that Encode gives for a printed request reads back as that request, when no space is in the first three bytes behind its frame |
| `Framing.ReadRequest` | protocol/protocol.hpp:86-109 | every int x and y and every operator, a space included, is recovered, with anything behind that has no space and begins with no digit |
| `Framing.ReadResponse` | protocol/protocol.hpp:130-154 | result and code are recovered |
| `Framing.Packages.Decode` | protocol/protocol.hpp:16-28 | the frame around the package |
| `Framing.Packages.Encode` | protocol/protocol.hpp:31-48 | a frame is taken off, or the buffer is as it was |
| `Framing.Request.Serialize` | protocol/protocol.hpp:60-83 | the printed request |
| `Framing.Request.Deserialize` | protocol/protocol.hpp:86-109 | accepted if and only if the outer spaces are two apart, and then the numbers and the operator around them; refused requests change nothing |
| `Framing.Response.Deserialize` | protocol/protocol.hpp:142-154 | accepted if and only if there is a space |
| `Numbers.AtoiToString` | protocol/protocol.hpp:103-104 | atoi reads back every int that to_string printed, with anything behind that is no digit |
| `Numbers.AtoiMeans` | protocol/protocol.hpp:37-37 | what atoi makes of white space, a sign, digits and anything behind: the low 32 bits of the number clamped to a long |
| `Numbers.DigitsCanonical` | protocol/protocol.hpp:37-37 | every text of digits is a printed number behind zeros and denotes that number |

## Left out

- Memory models weaker than sequential consistency: lock, semaphore and
  condition-variable operations are atomic steps.
- Fairness: the livelock and rest results bound the number of steps that can follow
  one another; they do not say that the scheduler gives every thread its turn.
- RingQueue.NoDeadlock: of threads that loop; a thread that leaves the queue for good
  is not modelled.
- TimeWheel.FiresExactlyOnTime: for runs that do not fault (`RunFaults` says which do) and
  callbacks that do not call the wheel again.
- WorkerPool.NoLostWakeup: an exception thrown by a job, and the destruction of the
  pool while threads use it, are not modelled.
- `Get_pointer` of the TCP pool, the blocking queue of thread/bloackQueue and the copy
  of the pool in thread/threadPool.
- MultipartSync.RoundTripExactly: for names and file names without `;` and `=`, content
  types without blanks at their ends, header lines that parse_header accepts and that
  are shorter than 8192 bytes: the reader splits, trims, checks and limits, and the
  printer escapes nothing. A callback refuses only for the item limit of the consumer
  (Httplib/httplib.h:6478-6497); other refusals, `finish = false` and the regular
  expressions beyond the prefixes and parameters they match are not modelled.
- ChunkedCoding.RoundTrip: without compression and without trailers on the writing
  side; the trailer lines that the reader sees are part of its model, their
  percent-decoding is not.
- Streams.WriteStream.WriteData: a stream that takes nothing for ever without an error,
  on which the loop of the source does not end.
- QueryStrings.QueryRoundTrip: for keys without `&` and `=`, without a blank at the front,
  and that decoding leaves alone, since the printer does not escape keys; the order of
  the multimap is that of the given sequence.
- PathParams.PathParamsMatcher.constructor: a repeated name is recorded in a field
  where the source throws. Regular-expression routes are not modelled.
- Ranges.RangeError: parsing of the Range header, and writing of the parts to a stream.
- LinkedList.List.Erase: `_size` is never initialised and is not modelled; nor is the
  memory of a deleted node, nor popping from an empty list, which deletes the sentinel.
- SlidingBuffer.Buffer.WriteAndPushBuffer: for two buffers; `WriteAndPushSelf` is the call
  with one. Where that is not ok, `MovedSource` says when the bytes read would still be
  the right ones; what the overlapping or freed copy then does is not modelled.
- SlidingBuffer.RunRefines: index arithmetic that overflows 64 bits.
- Bundle.PackRoundTrip: the codecs are parameters; input and output are different
  containers; sizes do not overflow. `bundle_type_of`, `bundle_len`, `bundle_zlen` and
  `bundle_zptr` read one byte further than the header that pack writes and are left out,
  as are the archives.
- Framing.RequestLaw: the JSON variant.
- Sockets, servers, processes, shells, logging, databases and web pages: input and
  output, or calls into other programs.
- random_iterator/vector.h, random_iterator/string.h and stack_queue_priority: easy or
  memory-unsafe members that add nothing to the above.
