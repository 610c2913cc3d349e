# Verification of the HTTPS server simulator

This project models the algorithmic cores of the simulator in Dafny and proves what they are for.
`dafny verify dfyconfig.toml` checks everything.

| file | models |
|---|---|
| LockFreeQueue.dfy, LockFreeCalls.dfy | the single-producer single-consumer linked queue, as atomic steps over a heap of nodes; what its calls answer and that they return |
| HpackPrimitives.dfy, StaticTable.dfy, Hpack.dfy, HpackOctets.dfy, OrderedKeys.dfy | HPACK integers, strings, the static table, encoder and decoder, header blocks octet by octet; the iteration order of `std::map` |
| Buffer.dfy | the growable byte buffer |
| Http2Frames.dfy, Http2Streams.dfy, Http2Answers.dfy, Http2Fragments.dfy | HTTP/2 frames on the wire, their effect on streams and connection, what each stream is sent, split header blocks |
| Http2Handler.dfy, Http2Connection.dfy, Http2Meaning.dfy | the HTTP/2 handler class, whole runs of it, a request echoed end to end, and what frames mean by their numbers and octets |
| HttpText.dfy, HttpParser.dfy, HttpMeaning.dfy, HttpRoundTrip.dfy, HttpSplit.dfy | the HTTP/1.1 parser and response builder, what its text functions mean, what survives a round trip, and header blocks cut by reads |
| Http1Connection.dfy, Http1Decisions.dfy, Http1Reads.dfy, Http1Handler.dfy | the HTTP/1.1 request state machine, what it refuses and answers, requests cut by or gathered in reads, and the handler class |
| WorkerPool.dfy, WorkerProgress.dfy | the worker pool as interleaved steps, and that it works |
| EventQueue.dfy, EventLoop.dfy, EventService.dfy | the event queue class; the event loop as interleaved steps, when it stops, and what it does until then |
| DebugChain.dfy, Statistics.dfy, Sorting.dfy | the debug handler chain; latency window and percentiles; what sorting makes of both |
| Basics.dfy, Bytes.dfy, Tls.dfy | what the others share; the TLS layer as an identity pipe |

Code that updates objects is modelled by classes whose methods are tied to specification functions; the theorems
about whole runs are lemmas about those functions. The three concurrent cores are state machines whose steps are the
single accesses to shared memory, and the theorems hold for every sequence of steps. `hide` statements in proofs only
keep definitions out of the verifier's sight.

What the proofs brought to light, each stated exactly in the table below:

- `ensure_writable` always reports success, while its growth computation stops at MAX_CAPACITY. The header promises
  that a write beyond that limit returns 0; the code has no such check, and copies beyond the end of its storage. The
  model's `Write` says exactly when, and promises nothing of what follows.
- `unskip` undoes `skip` exactly as long as nothing is compacted or cleared in between, and a write without room
  compacts.
- The receiver decodes every header fragment by itself, so a block that the sender has split in the middle of a field
  is refused, and a field longer than a frame can never be received.
- END_STREAM is looked at only on a frame that also carries END_HEADERS, so a split request without a body is never
  answered.
- An empty body sent with END_STREAM produces no frame at all.
- `parse_headers` forgets the lines of an incomplete block that it has already consumed. A head in several reads is
  served with the headers behind the lines that end before the last cut. That makes no difference to what the
  connection does exactly if they decide the same as all headers: whether the request is refused, and how long its
  body is. The limit of 100 headers is not applied across the reads.
- `stop()` of the worker pool clears `running_` before it sets `queue_closed_`; a task accepted in between
  may never run. What a returned stop() has run is exactly what had been accepted when the last worker saw the queue
  empty.
- `stop()` of the event loop is lost exactly if its store comes before `run()` sets `running_` and the queue refuses
  the SHUTDOWN event at the push; room at the call is not enough, since a post may come between the two.
- A size of 2^32 or more makes an HPACK length field wrap, and an HTTP/1.1 body of 2^32 octets or more is echoed only
  as far as its length modulo 2^32, or answered "OK" when that is zero.
- A read answers at most one buffered HTTP/1.1 request, and a read that delivers nothing answers none.

## Model

| member | source | states |
|---|---|---|
| LockFreeQueue.StepKeeps | codes/core/utils/include/utils/lockfree_queue.hpp:119-290 | every atomic step of producer or consumer, in any state of the invariant, touches live memory only and keeps the invariant |
| LockFreeQueue.NoRunFaults | codes/core/utils/include/utils/lockfree_queue.hpp:106-297 | no interleaving from the constructor on ever touches a freed node or moves data out of a node twice |
| LockFreeQueue.DeliversInOrder | codes/core/utils/include/utils/lockfree_queue.hpp:119-290 | in every reachable state, wherever the two threads are: the values delivered, then the data on the chain behind the consumer's cursor, are exactly the values linked so far, which are the first of the values pushed |
| LockFreeQueue.EmptyAnswerIsTrue | codes/core/utils/include/utils/lockfree_queue.hpp:135-297 | whatever the producer is doing, at every look at a link by pop, pop_batch or empty it is null exactly when everything linked so far has been delivered |
| LockFreeQueue.EndsAreLive | codes/core/utils/include/utils/lockfree_queue.hpp:119-133 | `head_` is always live; `tail_` is live and last except between the link store and the tail store |
| LockFreeQueue.DestructorFreesAll | codes/core/utils/include/utils/lockfree_queue.hpp:106-117 | after the destructor nothing is allocated and there were as many deletes as news |
| LockFreeQueue.TailCanBeFreed | codes/core/utils/include/utils/lockfree_queue.hpp:119-133 | the window is real: a reachable state in which the node `tail_` points to has been freed |
| LockFreeCalls.PopBatchHandsOut | codes/core/utils/include/utils/lockfree_queue.hpp:239-290 | a call of pop_batch in any interleaving hands out at most `max` values, in order, and returns how many; it stops short only at a moment at which everything linked had been handed out, so it takes at least what was there at its start |
| LockFreeCalls.PopHandsOut | codes/core/utils/include/utils/lockfree_queue.hpp:134-155 | a call of pop in any interleaving hands out one value and answers true, or none and answers false, and then at a moment at which everything linked had been handed out |
| LockFreeCalls.EmptyAnswers | codes/core/utils/include/utils/lockfree_queue.hpp:292-297 | the answer of empty was true at some moment of the call |
| LockFreeCalls.ConsumerIsWaitFree | codes/core/utils/include/utils/lockfree_queue.hpp:106-297 | whatever the producer does, pop returns after 5 steps of its own, empty after 2, pop_batch after 4 max + 4, and the destructor after 2 per node and 2 |
| LockFreeCalls.PushLinksAll | codes/core/utils/include/utils/lockfree_queue.hpp:119-228 | at every moment of a push of any number of items all of them or none are linked, and all of them, in order, when it has returned |
| LockFreeCalls.ProducerIsWaitFree | codes/core/utils/include/utils/lockfree_queue.hpp:119-228 | whatever the consumer does, a push of n items returns after 2n + 3 steps of its own |
| HpackPrimitives.EncodeInt | codes/core/protocol/source/hpack.cpp:124-138 | the loop appends the prefix-coded integer of section 5.1 of RFC 7541 |
| HpackPrimitives.EncodeString | codes/core/protocol/source/hpack.cpp:140-146 | appends the 32-bit length and the octets |
| HpackPrimitives.DecodeInt | codes/core/protocol/source/hpack.cpp:167-196 | value, status and cursor of every input, the cursor moving on success only; `Undefined` exactly where the original would shift an int too far or a bit out of it |
| HpackPrimitives.DecodeString | codes/core/protocol/source/hpack.cpp:198-214 | the same for strings |
| HpackPrimitives.IntRoundTrip | codes/core/protocol/source/hpack.cpp:124-196 | for every value below 2^32, prefix width and following octets, decoding gives the value and stops exactly behind it; the bits above the prefix survive |
| HpackPrimitives.IntAtMostSix | codes/core/protocol/source/hpack.cpp:124-138 | at most six octets are used |
| HpackPrimitives.IntPrefixRejected | codes/core/protocol/source/hpack.cpp:167-196 | every strict prefix of a printed integer is rejected |
| HpackPrimitives.IntLocal | codes/core/protocol/source/hpack.cpp:167-196 | what an integer decodes to does not depend on what follows it |
| HpackPrimitives.StringRoundTrip | codes/core/protocol/source/hpack.cpp:140-214 | a string comes back with the cursor exactly behind it if and only if its size is below 2^32 |
| HpackPrimitives.StringPrefixRejected | codes/core/protocol/source/hpack.cpp:198-214 | every strict prefix of a printed string is rejected |
| HpackPrimitives.StringLocal | codes/core/protocol/source/hpack.cpp:198-214 | what a string decodes to does not depend on what follows it |
| StaticTable.FirstIndex | codes/core/protocol/source/hpack.cpp:148-165 | the least index that matches, or that none does |
| StaticTable.FindStaticIndex | codes/core/protocol/source/hpack.cpp:148-155 | the linear search finds that index for name and value |
| StaticTable.FindStaticNameIndex | codes/core/protocol/source/hpack.cpp:157-165 | and for the name alone |
| OrderedKeys.Sorted | codes/core/protocol/source/hpack.cpp:232-263 | the iteration order of the header map: every key once, strictly ascending |
| OrderedKeys.LessIs | codes/core/protocol/source/hpack.cpp:232-263 | that order is by the first octet in which two keys differ, a prefix coming first |
| Hpack.Encode | codes/core/protocol/source/hpack.cpp:232-263 | the encoder appends field after field in map order |
| Hpack.Decode | codes/core/protocol/source/hpack.cpp:287-371 | the cursor loop accepts exactly the well-formed blocks and returns what they say |
| Hpack.FieldRoundTrip | codes/core/protocol/source/hpack.cpp:232-371 | any field, indexed or literal, reads back as itself whatever follows; an empty name is dropped |
| Hpack.DecodeJoin | codes/core/protocol/source/hpack.cpp:287-371 | decoding a concatenation merges the decodings |
| Hpack.BlockRoundTrip | codes/core/protocol/source/hpack.cpp:232-371 | decode(encode(h)) is h without the entry of the empty name for every map with strings below 2^32; a map without that name comes back if and only if its strings are |
| HpackOctets.BlockRead | codes/core/protocol/source/hpack.cpp:287-371 | any representations in any order, indexed, literal with, without or never indexed, with a new or a table name, and size updates, decode to what they say one after the other; indices outside the table and empty names store nothing |
| HpackOctets.RepPrefixRejected | codes/core/protocol/source/hpack.cpp:287-371 | any of them cut off after at least one octet is rejected, whatever came before |
| HpackOctets.LongIntegers | codes/core/protocol/source/hpack.cpp:167-196 | the value of an integer with five octets behind its prefix, modulo 2^32, and which fifth octets leave it undefined |
| HpackOctets.HuffmanBitIgnored | codes/core/protocol/source/hpack.cpp:198-214 | a string marked as Huffman coded is taken as it is |
| HpackOctets.EncoderChoice | codes/core/protocol/source/hpack.cpp:232-263 | the encoder prints the least table entry with name and value as one octet, else the least with the name, else the name itself |
| Buffers.Growth | codes/core/utils/source/buffer.cpp:327-348 | three regimes: never above MAX_CAPACITY, never below the need unless that exceeds MAX_CAPACITY |
| Buffers.GrowthRegimes | codes/core/utils/source/buffer.cpp:327-348 | doubling below 64 KiB, half as much again below 1 MiB, 256 KiB more above, unless the need or the ceiling decides |
| Buffers.Buffer.EnsureWritable | codes/core/utils/source/buffer.cpp:265-280 | always answers true; there is room if and only if unread and new octets fit in MAX_CAPACITY together; the unread octets stay, and the octets read unless there was no room |
| Buffers.Buffer.Compact | codes/core/utils/source/buffer.cpp:309-319 | moves the unread octets to the front and changes none |
| Buffers.Buffer.Resize | codes/core/utils/source/buffer.cpp:350-358 | refuses exactly the sizes above MAX_CAPACITY; the octets read and unread stay |
| Buffers.Buffer.ReserveCapacity | codes/core/utils/source/buffer.cpp:282-290 | provides the capacity asked for exactly when it says so; the octets read and unread stay |
| Buffers.Buffer.ShrinkToFit | codes/core/utils/source/buffer.cpp:292-302 | the storage becomes as long as the unread octets, or the default length |
| Buffers.Buffer.Write | codes/core/utils/source/buffer.cpp:38-48 | appends to the byte queue, and keeps the octets read as long as there is room; the copy stays within the storage if and only if unread and new octets fit in MAX_CAPACITY |
| Buffers.Buffer.Read | codes/core/utils/source/buffer.cpp:104-112 | takes from the front of the byte queue; the octets taken stay behind the reading position |
| Buffers.Buffer.Peek | codes/core/utils/source/buffer.cpp:204-211 | shows the front of the byte queue |
| Buffers.Buffer.PeekAt | codes/core/utils/source/buffer.cpp:224-231 | shows one octet, or says that there is none |
| Buffers.Buffer.Skip | codes/core/utils/source/buffer.cpp:241-243 | moves octets from the front of the queue behind the reading position |
| Buffers.Buffer.Unskip | codes/core/utils/source/buffer.cpp:245-251 | moves the octets last read back to the front, at most to the start of the storage |
| Buffers.Buffer.WriteUint | codes/core/utils/source/buffer.cpp:62-89 | appends the integer, most significant octet first, if there is room in MAX_CAPACITY |
| Buffers.Buffer.ReadUint | codes/core/utils/source/buffer.cpp:155-202 | reads it, or consumes nothing when octets are missing |
| Buffers.BigEndianRoundTrip | codes/core/utils/source/buffer.cpp:62-202 | reading undoes writing, for every width |
| Buffers.FromBigEndianRoundTrip | codes/core/utils/source/buffer.cpp:62-202 | and writing undoes reading |
| Buffers.Simulate | codes/core/utils/source/buffer.cpp:38-360 | a buffer put through any sequence of operations, `unskip` included, is a tape with the octets read, the unread ones and a capacity, and hands out the same octets |
| Buffers.TapeIsQueue | codes/core/utils/source/buffer.cpp:38-360 | without `unskip` the tape is a byte queue: compaction, growth and shrinking cannot be told from outside |
| Buffers.LineKept | codes/core/utils/source/buffer.cpp:241-319 | over any sequence of operations everything on the tape stays, followed by what is written, if and only if none of them compacts or clears it |
| Buffers.BackAgain | codes/core/utils/source/buffer.cpp:241-251 | stepping back by as far as the reading position has moved undoes a skip and every read, skip and step back after it, whatever was written in between, as long as nothing was dropped |
| Buffers.SkipThenUnskip | codes/core/utils/source/buffer.cpp:241-251 | the same of the buffer object: `skip`, any such operations, `unskip` |
| Http2Frames.FrameRoundTrip | codes/core/protocol/source/protocol_handler.cpp:456-487 | a printed frame is the first frame of the stream it starts, and the rest is the rest |
| Http2Frames.PrintedFrames | codes/core/protocol/source/protocol_handler.cpp:392-487 | printed frames come out in order, then what follows them; the residue is that of what follows |
| Http2Frames.FramesJoin | codes/core/protocol/source/protocol_handler.cpp:392-418 | reading a stream in two parts finds the same frames and keeps the same residue |
| Http2Frames.ResidueIncomplete | codes/core/protocol/source/protocol_handler.cpp:456-477 | what is kept between reads is no complete frame and shorter than 2^24 + 9 octets |
| Http2Frames.ChunkingIrrelevant | codes/core/protocol/source/protocol_handler.cpp:392-418 | frames and residue do not depend on how a stream is cut into reads |
| Http2Frames.PrintedThenChunked | codes/core/protocol/source/protocol_handler.cpp:392-487 | printed frames cut into arbitrary chunks come out as exactly these frames with nothing left over |
| Http2Frames.ContinuationsWhole | codes/core/protocol/source/protocol_handler.cpp:766-782 | CONTINUATION frames make up the rest of the block; only the last ends the headers |
| Http2Frames.HeaderFramesWhole | codes/core/protocol/source/protocol_handler.cpp:736-782 | the fragments concatenate to the block, none exceeds the limit, END_STREAM only on the first, END_HEADERS only on the last |
| Http2Frames.DataFramesWhole | codes/core/protocol/source/protocol_handler.cpp:784-804 | the chunks concatenate to the body, none is empty or too long, END_STREAM only on the last; an empty body sends nothing |
| Http2Streams.StreamIsolation | codes/core/protocol/source/protocol_handler.cpp:489-693 | in an error-free run a stream ends up exactly as if its own frames had been alone on the connection |
| Http2Streams.FineWhenAllSolo | codes/core/protocol/source/protocol_handler.cpp:489-693 | a run has no error if no stream has one on its own |
| Http2Streams.ReorderingIrrelevant | codes/core/protocol/source/protocol_handler.cpp:489-693 | reordering frames across streams changes neither success nor any stream |
| Http2Streams.SoloContents | codes/core/protocol/source/protocol_handler.cpp:558-637 | body and headers of one stream, from any state, follow from its own frames |
| Http2Streams.StreamContents | codes/core/protocol/source/protocol_handler.cpp:558-637 | a stream's body is the concatenation of its own DATA payloads, its headers the fold of its own fragments, each decoded by itself |
| Http2Answers.RunWrites | codes/core/protocol/source/protocol_handler.cpp:489-693 | the octets written in a run are those of the answers and acknowledgements of its frames, in order |
| Http2Answers.AnswersIsolated | codes/core/protocol/source/protocol_handler.cpp:489-693 | in an error-free run a stream is sent exactly what it would be sent alone on the connection |
| Http2Answers.ReorderingKeepsAnswers | codes/core/protocol/source/protocol_handler.cpp:489-693 | reordering frames across streams changes what is sent to no stream |
| Http2Meanings.RunAccepts | codes/core/protocol/source/protocol_handler.cpp:489-693 | a run succeeds if and only if every HEADERS and CONTINUATION payload decodes by itself, every DATA and CONTINUATION has a stream that is known by then, and no WINDOW_UPDATE is zero |
| Http2Meanings.WindowAndPhase | codes/core/protocol/source/protocol_handler.cpp:558-676 | after any of its frames a stream has the window it had plus all increments, up to 2^31 - 1, and the phase of the last frame that changes it |
| Http2Meanings.PingEchoed | codes/core/protocol/source/protocol_handler.cpp:678-684 | the octets that answer a PING |
| Http2Meanings.SettingsAcknowledged | codes/core/protocol/source/protocol_handler.cpp:528-556 | the octets that answer the first SETTINGS, and that no later one is answered |
| Http2Meanings.OthersIgnored | codes/core/protocol/source/protocol_handler.cpp:489-526 | frames of the other kinds, GOAWAY among them, change nothing |
| Http2Fragments.FieldPrefixRejected | codes/core/protocol/source/hpack.cpp:287-371 | a field cut off after at least one octet is rejected |
| Http2Fragments.PrefixDecodes | codes/core/protocol/source/hpack.cpp:287-371 | a prefix of a header block decodes if and only if it ends between two fields |
| Http2Fragments.FragmentsWhole | codes/core/protocol/source/protocol_handler.cpp:558-637 | fragments that decode one by one add up to the decoding of the whole block |
| Http2Fragments.SplitBlockReceived | codes/core/protocol/source/protocol_handler.cpp:558-637 | a block split by this sender is accepted by this receiver if and only if every cut falls between two fields, and then yields the headers sent |
| Http2Fragments.LongFieldRefused | codes/core/protocol/source/protocol_handler.cpp:736-782 | no block that contains a field longer than a frame is ever accepted back |
| Http2Fragments.SplitRequestUnanswered | codes/core/protocol/source/protocol_handler.cpp:558-637 | a request without a body is answered if and only if its header block fits in one frame: END_STREAM is ignored on a frame without END_HEADERS |
| Http2Handlers.Http2Handler.constructor | codes/core/protocol/source/protocol_handler.cpp:362-390 | a new connection has announced its own settings and knows no stream |
| Http2Meanings.FirstOctets | codes/core/protocol/source/protocol_handler.cpp:695-726 | the octets of its SETTINGS frame |
| Http2Handlers.HeaderOctets | codes/core/protocol/source/protocol_handler.cpp:824-860 | the nine octets of a frame header |
| Http2Handlers.Http2Handler.WriteFrame | codes/core/protocol/source/protocol_handler.cpp:824-860 | header and payload go out as one frame |
| Http2Handlers.Http2Handler.SendSettings | codes/core/protocol/source/protocol_handler.cpp:695-726 | the five local parameters, six octets each |
| Http2Handlers.Http2Handler.SendSettingsAck | codes/core/protocol/source/protocol_handler.cpp:728-734 | acknowledges once only |
| Http2Handlers.Http2Handler.SendHeadersFrame | codes/core/protocol/source/protocol_handler.cpp:736-782 | the offset loop writes exactly the fragments, and terminates |
| Http2Handlers.Http2Handler.SendDataFrame | codes/core/protocol/source/protocol_handler.cpp:784-804 | the offset loop writes exactly the chunks, and terminates |
| Http2Handlers.Http2Handler.CompleteRequest | codes/core/protocol/source/protocol_handler.cpp:875-926 | writes the answer: status headers and the echoed body |
| Http2Handlers.Http2Handler.HandleSettings | codes/core/protocol/source/protocol_handler.cpp:528-556 | new state as specified for SETTINGS |
| Http2Handlers.Http2Handler.HandleHeaders | codes/core/protocol/source/protocol_handler.cpp:558-589 | new state and result as specified for HEADERS |
| Http2Handlers.Http2Handler.HandleData | codes/core/protocol/source/protocol_handler.cpp:591-609 | new state and result as specified for DATA |
| Http2Handlers.Http2Handler.HandleContinuation | codes/core/protocol/source/protocol_handler.cpp:611-637 | new state and result as specified for CONTINUATION |
| Http2Handlers.Http2Handler.HandleWindowUpdate | codes/core/protocol/source/protocol_handler.cpp:639-668 | widens one stream, or all of them for stream 0, up to the maximum |
| Http2Handlers.Http2Handler.HandleFrame | codes/core/protocol/source/protocol_handler.cpp:489-526 | dispatches to the specified effect of every kind of frame |
| Http2Handlers.Http2Handler.ReadFrame | codes/core/protocol/source/protocol_handler.cpp:456-487 | handles and consumes exactly the first complete frame, or leaves everything |
| Http2Handlers.Http2Handler.ReadFrames | codes/core/protocol/source/protocol_handler.cpp:407-415 | the loop handles all complete frames up to the first that fails |
| Http2Handlers.Http2Handler.OnRead | codes/core/protocol/source/protocol_handler.cpp:392-418 | a read handles the complete frames of kept and new octets; what is kept afterwards is an incomplete frame; `Undefined` exactly when the octets run over the buffer |
| Http2Connections.Receive | codes/core/protocol/source/protocol_handler.cpp:392-487 | however a stream is cut into reads of at most 4096 octets, the handler ends up as if it had arrived at once, and the 64 MiB buffer never refuses a write |
| Http2Connections.ReceivePrinted | codes/core/protocol/source/protocol_handler.cpp:392-487 | printed frames cut into reads in any way are handled one by one, in order; an error-free run leaves nothing buffered |
| Http2Connections.RequestServed | codes/core/protocol/source/protocol_handler.cpp:558-926 | a request sent with this code's own sender on a new stream is taken if and only if its header block is cut between fields only; then it is answered once, with its own body |
| Http2Connections.AnswerReadBack | codes/core/protocol/source/protocol_handler.cpp:910-926 | the answer's frames come apart again: the first is a whole header block that decodes to the status headers, the others carry the body |
| Http2Connections.SettingsRead | codes/core/protocol/source/protocol_handler.cpp:528-726 | a printed SETTINGS payload tells its reader the parameters it was printed from |
| Http2Meanings.SettingsMean | codes/core/protocol/source/protocol_handler.cpp:528-556 | of every parameter the last value counts, under its number in RFC 7540; unknown ones and an incomplete tail are ignored |
| WorkerPool.StepKeeps | codes/core/msg_center/source/worker_pool.cpp:25-131 | every step of poster, controller and worker keeps the invariant |
| WorkerPool.TasksConserved | codes/core/msg_center/source/worker_pool.cpp:25-131 | in every interleaving each accepted task is in exactly one place: queued in order, in one worker's hands, or run once |
| WorkerPool.StopDrains | codes/core/msg_center/source/worker_pool.cpp:39-57 | with at least one worker, when stop() has returned every task accepted before it cleared `running_` has been run exactly once, restarts included |
| WorkerPool.StopLeaves | codes/core/msg_center/source/worker_pool.cpp:39-131 | and exactly: it has run precisely what had been accepted when the last worker saw the queue empty, and left precisely what was accepted later, in order |
| WorkerPool.NoWorkersNoWork | codes/core/msg_center/source/worker_pool.cpp:25-57 | without workers nothing is ever run |
| WorkerPool.WindowTaskStranded | codes/core/msg_center/source/worker_pool.cpp:39-69 | for every number of workers, a task accepted between the two flag stores of stop() can be left queued when stop() returns |
| WorkerProgress.StartOpens | codes/core/msg_center/source/worker_pool.cpp:25-37 | start() opens the queue and starts all workers |
| WorkerProgress.PostAppends | codes/core/msg_center/source/worker_pool.cpp:59-69 | a poster that gets the mutex appends exactly its task, or nothing if the queue is closed |
| WorkerProgress.OpenWhileRunning | codes/core/msg_center/source/worker_pool.cpp:25-69 | in every interleaving a pool takes tasks before its first start() and while it runs, and one that stop() has taken down refuses them |
| WorkerProgress.RunsFirst | codes/core/msg_center/source/worker_pool.cpp:84-131 | a worker that gets the mutex while tasks are queued takes the first and runs it, in five steps, whether the pool runs or stops |
| WorkerProgress.RunsAll | codes/core/msg_center/source/worker_pool.cpp:84-131 | one worker alone runs all that is queued, in order |
| WorkerProgress.FirstIsServed | codes/core/msg_center/source/worker_pool.cpp:84-131 | in every interleaving a worker that looks at a queue with tasks has run the first of them after four more steps of its own |
| WorkerProgress.FallsAsleep | codes/core/msg_center/source/worker_pool.cpp:84-103 | with nothing queued a worker of a running pool falls asleep and changes nothing else |
| WorkerProgress.Leaves | codes/core/msg_center/source/worker_pool.cpp:84-119 | with nothing queued a worker of a stopping pool leaves, whether the queue is closed yet or not |
| WorkerProgress.StopCanReturn | codes/core/msg_center/source/worker_pool.cpp:39-57 | no deadlock: from every reachable state inside stop() some continuation lets it return |
| EventQueues.StableSortUnique | codes/core/msg_center/source/event_queue.cpp:22-109 | there is one stable sort by type |
| EventQueues.InsertStable | codes/core/msg_center/source/event_queue.cpp:22-46 | accepting events one by one sorts them stably |
| EventQueues.EventQueue.Push | codes/core/msg_center/source/event_queue.cpp:22-46 | refuses exactly when closed, full or of no known type; otherwise inserts behind the events of the same or a more urgent type |
| EventQueues.EventQueue.HighestPriority | codes/core/msg_center/source/event_queue.cpp:139-146 | the first level that is not empty, or that all are |
| EventQueues.EventQueue.TryPop | codes/core/msg_center/source/event_queue.cpp:75-87 | hands out the first waiting event |
| EventQueues.EventQueue.Pop | codes/core/msg_center/source/event_queue.cpp:48-73 | the same, a SHUTDOWN event from a closed empty queue, or waiting |
| EventQueues.EventQueue.PopAll | codes/core/msg_center/source/event_queue.cpp:89-109 | hands out the first n waiting events |
| EventQueues.EventQueue.TryPopTimes | codes/core/msg_center/source/event_queue.cpp:75-109 | n calls of try_pop hand out the same n events and leave the same queue as one pop_all |
| EventQueues.EventQueue.Size | codes/core/msg_center/source/event_queue.cpp:116-119 | `size_` is the number of events on all levels |
| EventQueues.Simulate | codes/core/msg_center/source/event_queue.cpp:22-146 | the class behaves like the sorted sequence under any sequence of operations |
| EventQueues.EachKindFifo | codes/core/msg_center/source/event_queue.cpp:22-146 | over any sequence of operations every type is a FIFO, nothing is lost, doubled or invented, the order and the bound hold |
| EventQueues.ClosedForGood | codes/core/msg_center/source/event_queue.cpp:22-146 | the queue is closed by close() only and for good: from then on nothing is accepted and all that waited comes out in order |
| EventQueues.PushesSort | codes/core/msg_center/source/event_queue.cpp:22-46 | as long as nothing is taken out, what waits is the stable sort of what was accepted |
| EventQueues.PopAllIsStableSort | codes/core/msg_center/source/event_queue.cpp:75-109 | pop_all hands out the first n of any stable sort of what was accepted |
| EventLoop.StepStops | codes/core/msg_center/source/event_loop.cpp:20-58 | once the loop stops it keeps stopping; each of its steps brings the end nearer, none of another thread delays it |
| EventLoop.StopTakesEffect | codes/core/msg_center/source/event_loop.cpp:20-58 | after that at most one further handler starts in any interleaving, and after seven steps of the loop thread run() is left |
| EventService.HandlersCalled | codes/core/msg_center/source/event_loop.cpp:20-48 | in every interleaving the handlers called are exactly those of the events taken, in order, but for the one in hand, and per type the events taken and waiting are those accepted, in order |
| EventService.TakesAll | codes/core/msg_center/source/event_loop.cpp:20-48 | unless it is asked to stop, a loop before which n events wait has taken n events after 4n steps of its own in any interleaving |
| EventService.CallsNext | codes/core/msg_center/source/event_loop.cpp:28-41 | a running loop takes the next event and calls its handler, if it has one |
| EventService.PostAccepted | codes/core/msg_center/source/event_queue.cpp:22-46 | a posted event is taken in unless the queue is closed, full or does not know its type |
| EventService.FlagAndStops | codes/core/msg_center/source/event_loop.cpp:20-58 | in every run `running_` is down before run() and after it, and up in between unless a stop() has cleared it; the queue takes in at most one event per post and per call of stop() |
| EventLoop.EitherActionStops | codes/core/msg_center/source/event_loop.cpp:51-58 | either action of stop() suffices in any state: the store after run() has been entered, or an accepted SHUTDOWN event |
| EventLoop.RunSorted | codes/core/msg_center/source/event_loop.cpp:20-58 | in every reachable state a SHUTDOWN event is next in line or there is none |
| EventLoop.PushDecides | codes/core/msg_center/source/event_loop.cpp:51-58 | in any state the push takes hold if and only if the loop stops anyway or the queue accepts the event at that moment |
| EventLoop.StopHeard | codes/core/msg_center/source/event_loop.cpp:51-58 | whatever posts and loop steps come between its two actions, a call of stop() takes hold if and only if run() was entered before the store, or a SHUTDOWN event was waiting, or the queue takes the event at the push |
| EventLoop.LostStop | codes/core/msg_center/source/event_loop.cpp:20-58 | otherwise it is forgotten, whatever came between its two actions: the loop does not end until it is asked again |
| EventLoop.RoomTakenBetween | codes/core/msg_center/source/event_loop.cpp:51-58 | an instance: the queue has room when stop() is called, one post takes the last place between its two actions, and the stop is lost |
| HttpText.FirstLine | codes/core/protocol/source/http_parser.cpp:51-62 | the first CR LF ends the first line, or there is none |
| HttpText.LineRoundTrip | codes/core/protocol/source/http_parser.cpp:35-81 | a line printed with its end is read back, with exactly the rest behind it |
| HttpText.ValueOfDecimal | codes/core/protocol/source/http_parser.cpp:267-307 | a printed number has its value |
| HttpText.DecimalIntIs | codes/core/protocol/source/http_parser.cpp:262-275 | a printed status code has its value, with a minus sign exactly below zero |
| HttpText.DecimalRoundTrip | codes/core/protocol/source/protocol_handler.cpp:150-161 | every printed 64-bit length is read back by the Content-Length parser |
| HttpMeanings.UnsignedIs | codes/core/protocol/source/protocol_handler.cpp:150-161 | a Content-Length is read as n exactly if it is space, a sign or none, and digits of a 64-bit number with that value, which a minus sign negates modulo 2^64 |
| HttpMeanings.CharactersAre | codes/core/protocol/source/protocol_handler.cpp:150-161 | the characters that count as space and as digits |
| HttpMeanings.LineIs | codes/core/protocol/source/http_parser.cpp:35-81 | a line is taken if it is shorter than the limit, too long otherwise, and missing without its end |
| HttpMeanings.HeaderIs | codes/core/protocol/source/http_parser.cpp:186-245 | a header line is taken exactly if it is a name and a value around its first colon, blanks around both, the name not empty and both within the limits |
| HttpMeanings.SameNameIs | codes/core/protocol/source/http_parser.cpp:247-260 | two names match if and only if they agree up to their first NUL but for the case of letters |
| HttpMeanings.ContainsIs | codes/core/protocol/source/protocol_handler.cpp:131-134 | a part is found in a text if and only if the text is something, the part, and something |
| HttpParsers.HttpParser.ReadLine | codes/core/protocol/source/http_parser.cpp:35-81 | returns and consumes the first line, or says that it is missing or too long and consumes nothing |
| HttpParsers.HttpParser.ParseHeader | codes/core/protocol/source/http_parser.cpp:186-245 | the scanning loops split at the first colon, trim both sides and apply the limits |
| HttpParsers.HttpParser.ParseHeaders | codes/core/protocol/source/http_parser.cpp:145-184 | result, headers and consumption for every input, incomplete and faulty ones included |
| HttpParsers.HttpParser.ParseRequestLine | codes/core/protocol/source/http_parser.cpp:83-143 | the scanning loops compute the cut of the line |
| HttpParsers.RequestLineMeaning | codes/core/protocol/source/http_parser.cpp:83-143 | a line is refused as invalid if and only if it is not method, path and version separated by spaces, and for its version if and only if that is not HTTP/1.1 |
| HttpParsers.RequestLineUnique | codes/core/protocol/source/http_parser.cpp:83-143 | there is at most one way to read a request line |
| HttpParsers.HttpParser.FindHeader | codes/core/protocol/source/http_parser.cpp:247-260 | the walk over the map finds the first matching name |
| HttpParsers.FoundIsLeast | codes/core/protocol/source/http_parser.cpp:247-260 | a header is found whenever some name matches without regard to case, and the least such name counts |
| HttpParsers.HttpParser.BuildHeaders | codes/core/protocol/source/http_parser.cpp:277-294 | the header lines are written at the moving offset exactly if they fit |
| HttpParsers.HttpParser.BuildResponse | codes/core/protocol/source/http_parser.cpp:262-327 | succeeds if and only if the whole response fits, and has then written exactly it |
| HttpRoundTrip.HeaderLineRead | codes/core/protocol/source/http_parser.cpp:186-294 | a well-formed header printed as a line reads back as itself |
| HttpRoundTrip.HeadersOfWellFormed | codes/core/protocol/source/http_parser.cpp:145-245 | whatever the parser returns is well-formed and within the limits |
| HttpRoundTrip.ResponseReadBack | codes/core/protocol/source/http_parser.cpp:35-327 | status line and headers of a built response are read back, the added Content-Length included and exactly the body left, if and only if its headers are well-formed and at most 100 |
| HttpRoundTrip.EstimateSuffices | codes/core/protocol/source/protocol_handler.cpp:299-318 | the estimated size bounds the response for all headers and bodies, so the retry is never taken for the texts the handler sets |
| Http1Connections.BodyCollected | codes/core/protocol/source/protocol_handler.cpp:171-187 | while less than the announced length has arrived, all of it is body and nothing is left unread, however it is cut |
| Http1Connections.BodyFramed | codes/core/protocol/source/protocol_handler.cpp:171-194 | the read that completes the body leaves the state at once: the body is exactly the first n octets, the excess stays unread in order |
| Http1Connections.RequestServed | codes/core/protocol/source/protocol_handler.cpp:85-297 | a whole request on an idle connection is answered, and what follows it is left for the next; the answer carries the request's own body if and only if that is not empty and shorter than 2^32 |
| Http1Connections.RequestServedInReads | codes/core/protocol/source/protocol_handler.cpp:61-204 | a request whose head arrives in one piece is answered by the read that completes its body, whatever reads the body is cut into, and the excess stays unread; the answer carries exactly the announced octets if and only if there are fewer than 2^32 |
| Http1Connections.AnswerReadBack | codes/core/protocol/source/protocol_handler.cpp:283-297 | the client reads back the headers, the length of the answer and the answer itself, which is the request's body if and only if that is not empty and shorter than 2^32 |
| Http1Connections.EchoIsWhole | codes/core/protocol/source/protocol_handler.cpp:258-297 | the echo is the body itself if and only if the body is not empty and shorter than 2^32 |
| Http1Decisions.AnswerOctets | codes/core/protocol/source/protocol_handler.cpp:247-297 | every octet of an answer |
| Http1Decisions.RefusalOctets | codes/core/protocol/source/protocol_handler.cpp:93-95 | every octet of a refusal |
| Http1Decisions.BadLineRefused | codes/core/protocol/source/protocol_handler.cpp:86-111 | a first line of 8192 octets or more, or that is no request line of HTTP/1.1, is refused |
| Http1Decisions.BadHeaderRefused | codes/core/protocol/source/protocol_handler.cpp:114-126 | a header block is refused at its first line that is too long, no header, or the hundred and first |
| Http1Decisions.ChunkedRefused | codes/core/protocol/source/protocol_handler.cpp:128-141 | a request is refused if the value of the Transfer-Encoding that counts has "chunked" or "CHUNKED" in it |
| Http1Decisions.LengthDecides | codes/core/protocol/source/protocol_handler.cpp:143-168 | any other is decided by its Content-Length: without one no body, with one that is no number a refusal, with n a body of n octets |
| Http1Decisions.HeadersStored | codes/core/protocol/source/protocol_handler.cpp:143-168 | headers, length, body so far and debug token of a request whose body is still to come |
| Http1Decisions.RefusedForGood | codes/core/protocol/source/protocol_handler.cpp:196-204 | a refused connection answers every further read with the same refusal and reads no further |
| HttpSplit.SplitHeaders | codes/core/protocol/source/http_parser.cpp:145-184 | for every block and every cut: the whole is good if and only if the second read finds its part good and both parts together stay within the line limit; then both reads together see all headers, and the second alone returns what the whole says if and only if it sees every name the first had stored; while the block is unfinished both keep the same octets |
| HttpSplit.PrintedBlockSplit | codes/core/protocol/source/http_parser.cpp:145-184 | a readable block cut anywhere: the second read returns the headers behind the lines that end before the cut, so all of them if and only if no line does |
| HttpSplit.WholeLinesFit | codes/core/protocol/source/http_parser.cpp:277-294 | the number of lines that end before the cut, by the lengths of the printed lines |
| Http1Reads.SplitDelivered | codes/core/protocol/source/protocol_handler.cpp:114-169 | of a header block in two reads the second stores what one read would store if and only if it sees every name stored by the first; then both ways come to the same state |
| Http1Reads.HeadersSeen | codes/core/protocol/source/protocol_handler.cpp:114-204 | what a read does in front of any header block, as far as it can be told from outside, is what the verdict on its headers leads to: wait, refuse, or take a body of that length |
| Http1Reads.SplitServed | codes/core/protocol/source/protocol_handler.cpp:114-204 | for every header block and cut, two reads have the effect of one that can be told from outside if and only if the headers that the second still sees decide the same as all of them |
| Http1Reads.HeadInReads | codes/core/protocol/source/protocol_handler.cpp:61-204 | a request head in any number of reads, cut anywhere: no read fails or answers before the last, which serves the headers behind the lines that end before the last cut; that has the effect of one read if and only if those headers decide the same as all of them |
| Http1Reads.SplitHeadersForgotten | codes/core/protocol/source/http_parser.cpp:145-184 | an instance: a Content-Length that arrives in one read and the end of the headers in the next is lost, and the request is answered at once |
| Http1Reads.OnePerRead | codes/core/protocol/source/protocol_handler.cpp:61-204 | of requests that are buffered together every read answers the oldest one only, and what the reads deliver queues up behind |
| Http1Connections.PassKeeps | codes/core/protocol/source/protocol_handler.cpp:84-204 | every pass keeps the sanity of the state and makes progress through the phases |
| Http1Handlers.Http1Handler.GenerateResponse | codes/core/protocol/source/protocol_handler.cpp:299-337 | writes the response if either attempt has room |
| Http1Handlers.Http1Handler.ReadRequestLine | codes/core/protocol/source/protocol_handler.cpp:86-112 | the pass over a request line |
| Http1Handlers.Http1Handler.ReadHeaders | codes/core/protocol/source/protocol_handler.cpp:114-126 | the pass over the headers |
| Http1Handlers.Http1Handler.TakeHeaders | codes/core/protocol/source/protocol_handler.cpp:128-169 | what complete headers lead to |
| Http1Handlers.Http1Handler.ReadBody | codes/core/protocol/source/protocol_handler.cpp:171-187 | the pass over the body |
| Http1Handlers.Http1Handler.CompleteRequest | codes/core/protocol/source/protocol_handler.cpp:247-297 | the answer, and the return to the idle state |
| Http1Handlers.Http1Handler.Advance | codes/core/protocol/source/protocol_handler.cpp:84-204 | the loop runs the state machine until it returns, and terminates |
| Http1Handlers.Http1Handler.OnRead | codes/core/protocol/source/protocol_handler.cpp:61-207 | a read does to the connection what the state machine says of the octets delivered, unless they run over the buffer, and it says exactly when |
| DebugChains.OrderUnique | codes/core/debug_chain/source/debug_chain.cpp:177-190 | a set of handlers has one order by priority and name |
| DebugChains.CalledInOrder | codes/core/debug_chain/source/debug_chain.cpp:177-190 | of two handlers called the first has the lower priority number, or the same and the lesser name |
| DebugChains.FollowMeans | codes/core/debug_chain/source/debug_chain.cpp:114-175 | the handlers with a function for the direction are called one after the other, each on the context the last has left, up to the first that does not answer "continue", whose answer is the result |
| DebugChains.DebugChain.Register | codes/core/debug_chain/source/debug_chain.cpp:56-70 | adds the handler, or refuses a null one or a name already there |
| DebugChains.DebugChain.Unregister | codes/core/debug_chain/source/debug_chain.cpp:87-111 | removes and destroys the handler of that name; the others keep their order |
| DebugChains.DebugChain.SortHandlers | codes/core/debug_chain/source/debug_chain.cpp:177-190 | same handlers, strictly ascending |
| DebugChains.DebugChain.Process | codes/core/debug_chain/source/debug_chain.cpp:114-149 | result, context and handlers called are those of any ascending arrangement of the registered set: the order of registration does not matter |
| Statistics.SortedHasRank | codes/core/utils/source/statistics.cpp:143-158 | the element at position k of the sorted samples has rank k, counted in the unsorted samples |
| Statistics.RankMonotone | codes/core/utils/source/statistics.cpp:149-158 | a rank belongs to one value, and higher ranks to values that are not lower |
| Statistics.RankIs | codes/core/utils/source/statistics.cpp:149-158 | the position of a percentile is the last with at most that share of the other samples in front of it |
| Statistics.WindowSize | codes/core/utils/source/statistics.cpp:50-60 | the window holds at most 100000 samples, and more than 50000 once more than 100000 were recorded |
| Statistics.NextWindow | codes/core/utils/source/statistics.cpp:50-60 | every sample makes the window one longer, but for the one that finds it full and cuts it to its newer half first |
| Statistics.LatencyStatistics.RecordLatency | codes/core/utils/source/statistics.cpp:50-60 | the window is the exact suffix of all samples since the reset |
| Statistics.LatencyStatistics.Reset | codes/core/utils/source/statistics.cpp:113-129 | an empty window and zeros |
| Statistics.LatencyStatistics.CalculatePercentiles | codes/core/utils/source/statistics.cpp:131-159 | p50 <= p95 <= p99 are the samples of the documented ranks; the average is exact, without 64-bit overflow, and lies between two samples |
| Statistics.Accumulate | codes/core/utils/source/statistics.cpp:146-146 | the 64-bit sum of a full window does not overflow |

## Left out

- Weak memory: all atomics are sequentially consistent; relaxed and acquire/release effects are not modelled.
- Liveness of condition variables: the worker pool's wait may end at any time, and nothing is claimed about missed wake-ups or about when a stop() returns.
- Tasks that throw count as run; the optional CALLBACK_DONE event after a task is not modelled.
- WorkerPool and EventLoop are driven by one controlling thread and one call of run(); concurrent calls of start() and stop() of the pool, and repeated runs of the loop, are not modelled.
- The deletion of data nodes through the node base class, copy and move constructors of elements that throw, and concurrent use of the queue by more than one producer or consumer.
- The move constructor and move assignment of the buffer, and its thin variants by type (`write_char`, `read_char`, the readers without a success flag).
- Buffer storage is a sequence field that the methods reassign; aliasing of raw pointers handed out by `read_ptr` and `reserve` is not captured.
- Buffers.Buffer.Write: when unread and new octets exceed MAX_CAPACITY the original writes beyond its storage; the model says when that happens (`defined`) and nothing about the memory it hits or what follows. The sequences of operations in Buffers.Simulate end before such a write.
- HPACK integers with a sixth continuation octet, or a fifth of 16 or more: the original shifts an int by 35 bits or a bit out of it, which has no defined result in C++17; the model answers `Undefined`.
- The maximum dynamic table size of encoder and decoder, which nothing reads; Huffman coding and the dynamic table, which the code does not have.
- HTTP/2 streams are values in a map owned by the handler; `recv_window`, `last_stream_id_`, the unused senders of WINDOW_UPDATE and RST_STREAM, `send_response`, `close` and `reset` are not modelled.
- Http2Connections.RequestServed: speaks of requests with a body; Http2Fragments.SplitRequestUnanswered covers those without one.
- Buffers.Buffer.WriteUint: says the same of a full buffer.
- Http1Handlers.Http1Handler.OnRead: promises nothing once the buffer has been written beyond its end; what is buffered has no bound of its own, since requests that arrive faster than one a read queue up (Http1Reads.OnePerRead).
- Http2Handlers.Http2Handler.OnRead: the same; Http2Connections.Receive shows that it never happens between reads that do not fail.
- The error text of the HTTP parser, its null-buffer check, and `send_response` and `close` of the HTTP/1.1 handler.
- Partial writes of the TLS layer, the handshake, OpenSSL, certificates and ALPN selection: the TLS layer is an identity pipe that never fails to write.
- `strtoull` and `strcasecmp` follow the C locale; `std::sort` is an insertion sort, which for these total orders has the only possible result.
- The destructor of the debug chain, the built-in handlers, the C registry around it, and the assertions of debug builds against null pointers.
- Connection, request and byte counters, the per-second rate, and the copying of statistics.
- Sockets, kqueue/epoll/IOCP loops, the server life cycle, configuration, logging, callbacks, connection states and the Python client: I/O plumbing and members settled by reading one branch.
