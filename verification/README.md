# Verified models of the C course programs

A Dafny model of the stateful algorithms of the course repository, and proofs about
them over every input, every run and every interleaving. `dafny verify dfyconfig.toml`
checks the whole project.

The programs change state in place, and so do the classes here: arrays for the C
buffers, references for the C pointers, fields for the globals. Each method is proved
against a function on values, and the lemmas about those functions carry the theorems.

| program | files |
|---|---|
| week 41, bounded blocking queue with producers, consumers and the joining main thread | BlockingQueue, QueueThreads, QueueThreadsProofs |
| week 33, chained hash map and binary search tree | HashMap, SearchTree |
| week 47, event-loop echo server | ConnectionSpec, Transfers, ClosingSessions, Connection, EventLoopSpec, ConnectionLives, EventLoop |
| week 51, interrupt-driven receive ring and the 64-bit counter | InterruptRing, CriticalSection |
| week 55, UART line protocol | LineProtocol |
| week 32, linked list, stack and queue | LinkedList |
| week 53, block pool, byte ring, fixed point and PID | BlockPool, ByteRing, FixedPoint |
| week 56, the record parser before and after its refactoring | RecordParser, ParserCode |
| week 37, wire codec and UTF-8 truncation | WireCodec, Utf8 |
| shared | Bytes, Rings, Sums, Wrappers |

How the outside world enters:

- Threads (week 41): one step is one synchronisation action of one thread. Lock, wait
  (release and park), wake, critical section with its signal, unlock, atomic update;
  signal picks any parked thread, and spurious wakeups are steps of their own. Any
  number of producers and items, any positive number of consumers and slots. A thread
  not yet created is a thread not yet scheduled.
- Interrupts (week 51): one step is one access to a volatile object, and the handler may
  come between any two accesses of the main program; the model even lets them alternate,
  which includes every preemption the hardware allows. C leaves the order of the two loads
  in `rx_tail == rx_head` and of the two words of `micros` open; both orders are covered.
- `recv`, `send`, `accept`, `epoll_wait`, the clock, `malloc` and `calloc` are parameters:
  any results, in any order. The one assumption is the kernel's promise that `accept`
  returns an fd that is not in use and below 65536; an offer that breaks it counts as a
  failed `accept`. Every reading of the server's clock is a value of its own; of the readings
  within one receive or send loop only the last can be seen, and it is the one that is kept.
- The hash is any function of the key: the multiplier and the 64-bit start value of the
  program's hash play no part (its start value is not that of the published FNV-1a).
- `snprintf` of numbers and strings, `strtol` and `atoi` are specification functions on
  bytes; `atoi` of a number that does not fit an int, which C leaves undefined, is a
  parameter.
- 32-bit counters and ticks that may wrap are modelled as wrapping. Sizes of buffers and
  strings, `long` counters of connections and lines, and the queue's values are unbounded.

Where a property one would expect fails, a case in which it does is exhibited and the exact
condition is proved:

- A reply of exactly BUF_SIZE bytes is sent with a NUL for its newline, if the output
  buffer is empty, and closes the connection otherwise (`ConnectionSpec.CutExactlyAtBufSize`,
  `CutReplyNeedsRoom`; a session that sends one: `CutReplySent`).
- After `quit` the connection reads the same `quit` again, counts it again and, if the bye
  fits, answers it again, exactly if a read brings bytes before the connection is closed
  (`ClosingSessions.QuitReadAgain`, over the rest of a session `QuitReadOnAndOn`; a run:
  `QuitAnsweredTwice`); the stream property is therefore about a connection until it is
  closing.
- One call's replies are all queued exactly if they fit together (`ConnectionSpec.ProcessInStep`).
  A reply that does not fit closes the connection, but the loop goes on, and a shorter reply
  behind it may still be sent (`ClosingSessions.MiddleReplyMissing`; a run:
  `SecondReplyMissing`).
- parser.h promises that a refused line leaves the outputs untouched, whatever they hold.
  That is so exactly unless the line is refused for a name that is too long for an output
  buffer with room for at least one byte; then the cut name has been written. The value is
  never touched (`RecordParser.OutputsUntouched`; a case: `OutputsTouched`). parser.h also
  speaks of `name,value`; the code splits at `=`, and the model follows the code.
- The two parsers differ on numbers that do not fit an int unless `atoi` happens to give 0
  (`RecordParser.RefactoringPreserves`; a line: `ParsersDiffer`).
- A name that fills its 32 bytes loses the last one on the wire (`WireCodec.DecodeEncode`; a
  record: `FullNameIsCut`), and only canonical messages are re-encoded byte for byte
  (`WireCodec.EncodeDecode`; a message that is not: `NotReencoded`).
- Dividing and multiplying back loses more than rounding when the quotient overflows, with
  one exception in which two overflows cancel (`FixedPoint.DivThenMul`; a case:
  `DivOverflows`); conversions to 32 bits keep the low bits, as compilers do where C leaves
  it to them.
- An unprotected read of `micros` can be a value that never existed
  (`CriticalSection.UnguardedReadIsTorn`, `TornByCarry`; a run: `TornReadExists`).

## Model

| member | source | states |
|---|---|---|
| `BlockingQueue.PushAppends` | week41_concurrency_and_the_c_memory_model/concurrent.c:72-74 | storing at tail and advancing it appends one value at the back of the circular contents and keeps tail == (head + count) % capacity |
| `BlockingQueue.PopRemovesFirst` | week41_concurrency_and_the_c_memory_model/concurrent.c:90-92 | the value at head is the oldest one, and advancing head removes it alone |
| `BlockingQueue.SharedQueue.constructor` | week41_concurrency_and_the_c_memory_model/concurrent.c:49-56 | a new queue is open, consistent and empty |
| `BlockingQueue.SharedQueue.PushBody` | week41_concurrency_and_the_c_memory_model/concurrent.c:71-76 | in place: appends the value and signals, or does neither once closed; never overwrites a waiting value |
| `BlockingQueue.SharedQueue.PopBody` | week41_concurrency_and_the_c_memory_model/concurrent.c:86-94 | in place: takes the oldest value, and fails exactly when the queue is empty |
| `BlockingQueue.SharedQueue.CloseBody` | week41_concurrency_and_the_c_memory_model/concurrent.c:101 | sets closed and changes nothing else |
| `QueueThreadsProofs.InitInv` | week41_concurrency_and_the_c_memory_model/concurrent.c:161-180 | the full invariant (lock, join and close order, FIFO, wakeups, counters) holds before the first step, for any number of producers, any number of consumers and any capacity, at least one of the last two |
| `QueueThreadsProofs.NextInv` | week41_concurrency_and_the_c_memory_model/concurrent.c:65-142 | every step of every thread, spurious wakeups included, keeps the full invariant |
| `QueueThreadsProofs.RunInv` | week41_concurrency_and_the_c_memory_model/concurrent.c:65-142 | every run keeps it |
| `QueueThreadsProofs.LinearizableFifo` | week41_concurrency_and_the_c_memory_model/concurrent.c:65-96 | under every interleaving what was popped followed by what is queued is what was pushed, in order; with at most 1000000 items each, every integer popped carries the number of a producer and those of producer p are the first of p * 1000000 + 0, 1, 2, ..., in that order |
| `QueueThreadsProofs.ValueSplits` | week41_concurrency_and_the_c_memory_model/concurrent.c:121 | the integer pushed for item i of producer p gives p and i back, for i below 1000000 |
| `QueueThreadsProofs.NobodyStuck` | week41_concurrency_and_the_c_memory_model/concurrent.c:68-93 | when every thread is parked or finished and the mutex is free, main can step: full-side and empty-side waiting cannot coexist |
| `QueueThreadsProofs.NoDeadlock` | week41_concurrency_and_the_c_memory_model/concurrent.c:65-105 | no lost wakeup: while a consumer is parked every queued item has a consumer of its own on its way, dually for free slots; and while some thread has not finished a step other than a spurious wakeup is possible |
| `QueueThreadsProofs.StepBound` | week41_concurrency_and_the_c_memory_model/concurrent.c:117-142 | every step lowers a measure of the remaining work by at least one, a spurious wakeup raises it by at most two |
| `QueueThreadsProofs.Termination` | week41_concurrency_and_the_c_memory_model/concurrent.c:117-142 | a run has at most 20 steps per item, 7 per thread and 6 for main, plus 3 for each spurious wakeup in it |
| `QueueThreadsProofs.EndState` | week41_concurrency_and_the_c_memory_model/concurrent.c:178-180 | when nothing but spurious wakeups can happen all threads have finished, the queue is drained, produced == consumed == producers * items, checksum is the sum of v % 97 over the integers popped, and, with at most 1000000 items each, those of producer p are p * 1000000 + 0, ..., items - 1, in that order |
| `HashMap.TakenOut` | week33_trees_hash_tables_and_abstract_data_types/adt.c:185-192 | unlinking the n-th entry of a chain, at its head or after its predecessor, keeps every other entry in its bucket and chain, and takes exactly that key out of the map |
| `HashMap.PutInFront` | week33_trees_hash_tables_and_abstract_data_types/adt.c:162-164 | linking an entry whose key is absent in front of its bucket, hash % bucket_count, adds exactly that key |
| `HashMap.ValueStored` | week33_trees_hash_tables_and_abstract_data_types/adt.c:142-146 | storing a value through a found entry changes that key's value alone |
| `HashMap.EntriesAreKeys` | week33_trees_hash_tables_and_abstract_data_types/adt.c:198-201 | the number of entries on the chains is the number of keys: no key twice, no entry on two chains |
| `HashMap.MoveStep` | week33_trees_hash_tables_and_abstract_data_types/adt.c:125-131 | moving one entry keeps the old table and the fresh one both well formed, and between them exactly the original map |
| `HashMap.DoneMoving` | week33_trees_hash_tables_and_abstract_data_types/adt.c:123-135 | when all buckets are empty the fresh table holds the original map |
| `HashMap.LoadStaysLow` | week33_trees_hash_tables_and_abstract_data_types/adt.c:139-196 | over every run of puts and removes, allocations failing anywhere: bucket_count is 8 times a power of two and the load never exceeds 3/4 |
| `HashMap.GrowthSuffices` | week33_trees_hash_tables_and_abstract_data_types/adt.c:149-152 | one doubling always restores the load, and a failed put leaves the map unchanged |
| `HashMap.RunRemembers` | week33_trees_hash_tables_and_abstract_data_types/adt.c:139-196 | over every run, allocations failing anywhere, a key has the value of the last successful put of it with no later remove, and is absent if there is none |
| `HashMap.Map.constructor` | week33_trees_hash_tables_and_abstract_data_types/adt.c:89-98 | an empty well-formed table of 8 buckets |
| `HashMap.Map.Seek` | week33_trees_hash_tables_and_abstract_data_types/adt.c:141-147 | the search loop ends on the entry of the key if the key is in the map, and at the end of its chain otherwise |
| `HashMap.Map.Get` | week33_trees_hash_tables_and_abstract_data_types/adt.c:169-180 | finds a key exactly when the map has it, with its value, in as many steps as its place on the chain |
| `HashMap.Map.Put` | week33_trees_hash_tables_and_abstract_data_types/adt.c:139-167 | over real chains: on success the key has the value and no other key changes, on failure nothing does; it succeeds exactly when the key is there, or there is room or the table can grow and the entry can be allocated; the table stays well formed and of the size the abstract put gives |
| `HashMap.Map.Remove` | week33_trees_hash_tables_and_abstract_data_types/adt.c:182-196 | over real chains: the key is gone afterwards and no other key changes, the result says whether it was there, count follows |
| `HashMap.Map.PerformAll` | week33_trees_hash_tables_and_abstract_data_types/adt.c:139-201 | any run of puts and removes on a fresh map of real chains: every key has the value of the last put of it that succeeded, unless removed since or never put, when it is not there; results and table size are the abstract ones, count is the number of keys and never exceeds 3/4 of bucket_count |
| `HashMap.Map.Grow` | week33_trees_hash_tables_and_abstract_data_types/adt.c:117-137 | relinks every entry into an array twice as large: same entries, same map, twice the buckets |
| `HashMap.Map.MoveEntry` | week33_trees_hash_tables_and_abstract_data_types/adt.c:126-130 | one turn of the relinking loop, with progress |
| `SearchTree.HungIsInserted` | week33_trees_hash_tables_and_abstract_data_types/adt.c:16-25 | changing the one link where the search ends turns the heap into that of the tree with the key inserted, and no other subtree changes |
| `SearchTree.InsertAddsKey` | week33_trees_hash_tables_and_abstract_data_types/adt.c:14-27 | insertion adds exactly the new key, keeps the search order, and leaves the tree alone when the key is there |
| `SearchTree.InorderSorted` | week33_trees_hash_tables_and_abstract_data_types/adt.c:40-46 | the in-order sequence is strictly increasing and holds exactly the keys, each once |
| `SearchTree.SortedInsertionIsAList` | week33_trees_hash_tables_and_abstract_data_types/adt.c:254-262 | n keys inserted in increasing order give height n |
| `SearchTree.CountingVisitor` | week33_trees_hash_tables_and_abstract_data_types/adt.c:225-229 | the counting visitor applied in order counts the keys |
| `SearchTree.Root.TreeInsert` | week33_trees_hash_tables_and_abstract_data_types/adt.c:14-27 | through the link pointer, on the heap: adds exactly the new key or reports a duplicate or a failed allocation with the tree unchanged |
| `SearchTree.Root.InsertMany` | week33_trees_hash_tables_and_abstract_data_types/adt.c:14-27 | any run of insertions on an empty tree on the heap, allocations failing anywhere: it holds exactly the keys whose allocation succeeded, each reported inserted at its first success alone; if all succeed in increasing order it is a path of height n |
| `SearchTree.Root.TreeContains` | week33_trees_hash_tables_and_abstract_data_types/adt.c:29-38 | decides membership in at most as many comparisons as the tree is high |
| `SearchTree.Root.TreeInorder` | week33_trees_hash_tables_and_abstract_data_types/adt.c:40-46 | applies the visitor to the keys in in-order order, for any visitor |
| `SearchTree.Root.TreeHeight` | week33_trees_hash_tables_and_abstract_data_types/adt.c:57-62 | the number of nodes on the longest path, by recursion on the nodes |
| `SearchTree.HeightIsLongest` | week33_trees_hash_tables_and_abstract_data_types/adt.c:57-62 | some way down from the root has as many nodes as the height, and none has more |
| `Bytes.FirstAtFound` | week47_event_driven_and_scalable_i_o/evserver.c:91 | memchr and strchr: the place found is the first such byte, and none is found only when there is none |
| `RecordParser.DigitsValueOf` | week47_event_driven_and_scalable_i_o/evserver.c:101-104 | the digits printed for a number, read back, are that number |
| `Bytes.DecimalIs` | week47_event_driven_and_scalable_i_o/evserver.c:101-104 | 0, 907 and 12345 are printed so |
| `Bytes.DecimalDigits` | week47_event_driven_and_scalable_i_o/evserver.c:101-104 | a number is printed in decimal digits, with no zero in front |
| `ConnectionSpec.FrameAppend` | week47_event_driven_and_scalable_i_o/evserver.c:87-110 | framing a stream in two parts, the unfinished line carried over, is framing it whole: replies, remainder and line count |
| `ConnectionSpec.ProcessEchoes` | week47_event_driven_and_scalable_i_o/evserver.c:87-116 | for any buffer contents: the replies are appended whole and in order when they fit, `in` keeps exactly what follows the last answered line, and the connection is closing after it exactly if it was, or on a quit, on a line that fills the buffer, or on replies that do not fit |
| `ConnectionSpec.ProcessInStep` | week47_event_driven_and_scalable_i_o/evserver.c:87-116 | one chunk: delivered plus pending is the greeting, all echoes and the farewell exactly if they fit, with the exact condition for closing |
| `ConnectionSpec.ReadableFaithful` | week47_event_driven_and_scalable_i_o/evserver.c:118-142 | whatever recv returns, in any pieces, until closing the connection stays where the stream puts it |
| `ConnectionSpec.ReadableStaysClosing` | week47_event_driven_and_scalable_i_o/evserver.c:118-142 | reading never reopens a closing connection |
| `ConnectionSpec.WritableKeeps` | week47_event_driven_and_scalable_i_o/evserver.c:144-160 | whatever send accepts, bytes only move from pending to delivered, and `in` and the line count stay, closing or not |
| `ConnectionSpec.WritableFaithful` | week47_event_driven_and_scalable_i_o/evserver.c:144-160 | whatever send accepts, delivered plus pending stays the same stream |
| `ConnectionSpec.SessionFaithful` | week47_event_driven_and_scalable_i_o/evserver.c:76-160 | every session of reads and writes in any order: until closing, delivered plus pending is the greeting and the echo of every complete line, `in` is the newline-free remainder and shorter than the buffer |
| `ConnectionSpec.ChunkingDoesNotMatter` | week47_event_driven_and_scalable_i_o/evserver.c:118-160 | two sessions that received the same bytes have been told, or will be, the same |
| `ConnectionSpec.CutExactlyAtBufSize` | week47_event_driven_and_scalable_i_o/evserver.c:101-104 | the reply to a line is its formatted text exactly when that text does not have BUF_SIZE bytes; then its last byte is sent as NUL |
| `ConnectionSpec.CutReplyNeedsRoom` | week47_event_driven_and_scalable_i_o/evserver.c:76-84 | a cut reply goes out exactly when the output buffer is empty; otherwise the connection closes |
| `ConnectionSpec.CutReplySent` | week47_event_driven_and_scalable_i_o/evserver.c:101-104 | a session that takes the greeting and sends a line of 4092 bytes stays open, and its pending reply has a NUL in place of the newline |
| `Transfers.ReadableExact` | week47_event_driven_and_scalable_i_o/evserver.c:118-142 | for every sequence of recv results an open connection takes in the bytes delivered, in order; unless the input itself ends the session it takes in all of them, answers every complete line, and is closing exactly if the peer has closed or the socket has failed, the first discarding unsent output |
| `Transfers.WritableExact` | week47_event_driven_and_scalable_i_o/evserver.c:144-160 | for every sequence of send results: as many pending bytes as it takes are delivered from the front, the rest stays pending, and the connection is closing exactly if it was or the socket gave up before the end |
| `ClosingSessions.QuitLeft` | week47_event_driven_and_scalable_i_o/evserver.c:95-99 | a processed quit leaves the connection closing with that quit as its first line |
| `ClosingSessions.QuitReadAgain` | week47_event_driven_and_scalable_i_o/evserver.c:95-142 | for every recv script a connection with a quit waiting counts it again if and only if the read brings bytes, says the bye again if and only if it then fits, and is left closing with the quit, and whatever came, still waiting |
| `ClosingSessions.QuitReadOnAndOn` | week47_event_driven_and_scalable_i_o/evserver.c:91-160 | the same over all turns after the quit: one more line counted for each read that brings bytes, and the bye repeated in the stream for each of them at which it fits, unless the peer ends the stream or `in` fills up |
| `ClosingSessions.QuitAnsweredTwice` | week47_event_driven_and_scalable_i_o/evserver.c:95-99 | a run: after the greeting is taken, quit and then one more byte leave two lines counted and two byes pending |
| `ClosingSessions.LaterReplyKept` | week47_event_driven_and_scalable_i_o/evserver.c:76-84 | a reply that does not fit is dropped and a later one that fits is queued |
| `ClosingSessions.MiddleReplyMissing` | week47_event_driven_and_scalable_i_o/evserver.c:87-110 | one read of two lines, of which only the reply to the first does not fit: the second alone is answered, both are counted, and the connection is closing |
| `ClosingSessions.SecondReplyMissing` | week47_event_driven_and_scalable_i_o/evserver.c:76-110 | a run: lines of 4000, 100 and 1 letters; the pending replies are the first and the third |
| `ClosingSessions.HelloAnswered` | week47_event_driven_and_scalable_i_o/evserver.c:91-106 | a client that sends hi is greeted and sent 1: hi |
| `ClosingSessions.LongLineRefused` | week47_event_driven_and_scalable_i_o/evserver.c:112-116 | a client that sends 4096 bytes without a newline is told that the line is too long, and dropped |
| `Connection.Connection.constructor` | week47_event_driven_and_scalable_i_o/evserver.c:174-177 | a zeroed connection with its fd and its time |
| `Connection.Connection.QueueData` | week47_event_driven_and_scalable_i_o/evserver.c:76-84 | in the array: appends all bytes or none, and closes in the second case |
| `Connection.Connection.FindNewline` | week47_event_driven_and_scalable_i_o/evserver.c:91 | memchr: the first newline of the unprocessed input |
| `Connection.Connection.KeepFrom` | week47_event_driven_and_scalable_i_o/evserver.c:108-110 | memmove over itself: the unprocessed input, and nothing else, is kept |
| `Connection.Connection.ProcessInput` | week47_event_driven_and_scalable_i_o/evserver.c:87-116 | the in-place loop over the buffers does what the framing on values does |
| `Connection.Connection.OnReadable` | week47_event_driven_and_scalable_i_o/evserver.c:118-142 | the receive loop on the array, for every sequence of recv results: same connection, same bytes taken, last_active only on bytes |
| `Connection.Connection.OnWritable` | week47_event_driven_and_scalable_i_o/evserver.c:144-160 | the send loop, for every sequence of send results, with the buffer reset once drained |
| `Connection.Connection.OneTurn` | week47_event_driven_and_scalable_i_o/evserver.c:91-106 | one turn of the line loop in place: after a quit only the tail is left to do, after another line the rest of the loop, towards the same end; and the next newline is found |
| `EventLoopSpec.ChangeSlot` | week47_event_driven_and_scalable_i_o/evserver.c:57-74 | when one table entry and its epoll registration change together, the registry stays consistent and the number of entries changes by what was put in and taken out |
| `EventLoopSpec.CloseInv` | week47_event_driven_and_scalable_i_o/evserver.c:57-64 | closing a connection keeps the registry invariant |
| `EventLoopSpec.AttendFaithful` | week47_event_driven_and_scalable_i_o/evserver.c:286-287 | a read and a write in one event keep the stream property |
| `EventLoopSpec.DispatchInv` | week47_event_driven_and_scalable_i_o/evserver.c:279-293 | any event on any fd keeps the registry invariant: live is the number of entries, conns[fd]->fd == fd, live <= peak <= total, EPOLLOUT armed exactly while output is unsent, no closing connection with nothing left to send |
| `EventLoopSpec.AcceptInv` | week47_event_driven_and_scalable_i_o/evserver.c:162-191 | accepting any number of connections, with fcntl, calloc and epoll_ctl failing anywhere, keeps it |
| `EventLoopSpec.SweepCloses` | week47_event_driven_and_scalable_i_o/evserver.c:193-202 | the sweep closes exactly the connections idle for more than IDLE_LIMIT, and keeps the invariant, peak and total |
| `EventLoopSpec.HandleAll` | week47_event_driven_and_scalable_i_o/evserver.c:265-294 | a whole batch of events, in any order, keeps the invariant |
| `EventLoopSpec.Run` | week47_event_driven_and_scalable_i_o/evserver.c:257-300 | the invariant holds at the head of the loop in every run |
| `EventLoopSpec.StartedInv` | week47_event_driven_and_scalable_i_o/evserver.c:31-36 | it holds of the empty table |
| `EventLoopSpec.CloseAllCloses` | week47_event_driven_and_scalable_i_o/evserver.c:302-304 | the loop at the end closes the entries it has passed, and no other |
| `EventLoopSpec.StoppedClean` | week47_event_driven_and_scalable_i_o/evserver.c:302-304 | after it no connection is open, counted in live or watched, and peak and total are as they were |
| `EventLoopSpec.EventIsLocal` | week47_event_driven_and_scalable_i_o/evserver.c:279-293 | an event on one connection changes nothing of another |
| `EventLoopSpec.PeakAfterEvent` | week47_event_driven_and_scalable_i_o/evserver.c:188-189 | one event: peak becomes the greater of itself and live |
| `EventLoopSpec.PeakIsMaximum` | week47_event_driven_and_scalable_i_o/evserver.c:257-300 | in every run of the server peak is the greatest number of connections live after any event |
| `EventLoopSpec.AcceptPeak` | week47_event_driven_and_scalable_i_o/evserver.c:188-189 | each admission raises live and total by one, and peak follows |
| `ConnectionLives.DispatchFate` | week47_event_driven_and_scalable_i_o/evserver.c:279-293 | a ready event frees the entry exactly if it hangs up or if, after the reads and then the writes it asks for, the connection is closing with nothing pending; otherwise the entry is what those reads and writes made of it, last_active is the time of the last transfer in it, and EPOLLOUT is armed exactly while something is pending |
| `ConnectionLives.AcceptAdmits` | week47_event_driven_and_scalable_i_o/evserver.c:162-191 | every offer before accept fails whose set-up succeeds is in the table with the greeting pending; nothing else changes |
| `ConnectionLives.MomentIs` | week47_event_driven_and_scalable_i_o/evserver.c:193-304 | at each event and each sweep exactly the connections with a reason leave the table: a hangup, closing with everything delivered, or more than 30 seconds without a transfer |
| `ConnectionLives.LeavesForAReason` | week47_event_driven_and_scalable_i_o/evserver.c:257-300 | over every run of the loop a connection that has left the table had such a reason at some event or sweep of the run |
| `ConnectionLives.NobodyForgotten` | week47_event_driven_and_scalable_i_o/evserver.c:193-300 | with a clock that does not go back, after every pass no connection has been without a transfer for 30 + 5 seconds and the time a sweep takes |
| `ConnectionLives.RunsUntil` | week47_event_driven_and_scalable_i_o/evserver.c:256-277 | the loop goes on until a wakeup through the pipe or a failure of epoll_wait, and nothing after that matters |
| `EventLoop.AttendTo` | week47_event_driven_and_scalable_i_o/evserver.c:286-287 | the two calls on the object do what the event asks on values |
| `EventLoop.Server.constructor` | week47_event_driven_and_scalable_i_o/evserver.c:31-36 | the table of 65536 null pointers |
| `EventLoop.Server.ConnClose` | week47_event_driven_and_scalable_i_o/evserver.c:57-64 | unregisters, clears the entry and lowers live |
| `EventLoop.Server.AttendAt` | week47_event_driven_and_scalable_i_o/evserver.c:279-287 | the other connections in the table share no memory with this one and stay as they are |
| `EventLoop.Server.UpdateInterest` | week47_event_driven_and_scalable_i_o/evserver.c:67-74 | arms EPOLLOUT exactly when output is unsent |
| `EventLoop.Server.AcceptNew` | week47_event_driven_and_scalable_i_o/evserver.c:162-191 | the accept loop over real objects does what the one on values does |
| `EventLoop.Server.Dispatch` | week47_event_driven_and_scalable_i_o/evserver.c:279-293 | the event branch of the loop over real objects, with the same fate for the connection |
| `EventLoop.Server.SweepIdle` | week47_event_driven_and_scalable_i_o/evserver.c:193-202 | the sweep over the table of pointers |
| `EventLoop.Server.RunLoop` | week47_event_driven_and_scalable_i_o/evserver.c:257-300 | the whole loop over the table of pointers is the run on values, so every invariant above holds of it |
| `EventLoop.Server.Serve` | week47_event_driven_and_scalable_i_o/evserver.c:257-304 | every life of the server ends with all entries null, live 0 and nothing watched |
| `InterruptRing.NextInv` | week51_interrupts_and_real_time_behavior/interrupts.c:73-100 | every single volatile access of the handler and of rx_get, interleaved in any way, keeps the ring invariant |
| `InterruptRing.RunInv` | week51_interrupts_and_real_time_behavior/interrupts.c:73-100 | every run keeps it |
| `InterruptRing.RingIsFifo` | week51_interrupts_and_real_time_behavior/interrupts.c:73-100 | the bytes callers of rx_get were given, in order, followed by the ring contents are the kept bytes in order, kept plus lost are the bytes dealt with, and rx_dropped is the number lost modulo 2^32 |
| `InterruptRing.CallReturnsItsByte` | week51_interrupts_and_real_time_behavior/interrupts.c:94-99 | a call of rx_get that returns true takes one byte out of the ring and returns that byte; one that returns false takes none |
| `InterruptRing.EntriesCount` | week51_interrupts_and_real_time_behavior/interrupts.c:75 | isr_entries is the number of interrupts modulo 2^32 |
| `InterruptRing.StoreIsAside` | week51_interrupts_and_real_time_behavior/interrupts.c:84-85 | the handler never stores into a slot holding a waiting byte, nor into the one rx_get is reading |
| `InterruptRing.TestsAreExact` | week51_interrupts_and_real_time_behavior/interrupts.c:81-96 | in every reachable state the handler drops a byte exactly when 63 wait, and rx_get reports empty exactly when none does, or did when it loaded rx_head, if it loads that first |
| `InterruptRing.EmptyTest` | week51_interrupts_and_real_time_behavior/interrupts.c:93 | with rx_head loaded first the test decides whether the ring was empty at that load |
| `InterruptRing.LostAndKept` | week51_interrupts_and_real_time_behavior/interrupts.c:80-86 | every byte is either kept or counted as lost |
| `CriticalSection.NextInv` | week51_interrupts_and_real_time_behavior/interrupts.c:49-71 | a tick or a step of the reader keeps the mask, the history of micros and what each load has seen |
| `CriticalSection.GuardedReadIsExact` | week51_interrupts_and_real_time_behavior/interrupts.c:199-201 | in a critical section the two loads, in either order, give the value micros has until the section ends, and the mask is restored as found |
| `CriticalSection.UnguardedReadIsTorn` | week51_interrupts_and_real_time_behavior/interrupts.c:195 | without one, over every run, wraps at 2^64 included: the reading joins the high word of one value to the low word of another, in either order of the loads, and is a value micros had between the loads exactly when at least the ticks came between that take micros on by that many whole words |
| `CriticalSection.TornByCarry` | week51_interrupts_and_real_time_behavior/interrupts.c:195 | with fewer than 2^29 ticks between the loads: exactly when no carry into the high word came between |
| `CriticalSection.TornReadExists` | week51_interrupts_and_real_time_behavior/interrupts.c:195-204 | for either order of the loads a run with one tick between them whose reading micros never had |
| `LineProtocol.EchoFits` | week55_embedded_debugging_and_testing/protocol.c:30-32 | the numbered echo of any line that fits the buffer fits the 80-byte reply buffer |
| `LineProtocol.ExecInv` | week55_embedded_debugging_and_testing/protocol.c:20-54 | over any schedule of arrivals and polls the state is a fold over what was read, and read plus unread is what arrived |
| `LineProtocol.OutputIsFold` | week55_embedded_debugging_and_testing/protocol.c:20-54 | the same from the start, with the bound used <= 63 |
| `LineProtocol.ScheduleIndependence` | week55_embedded_debugging_and_testing/protocol.c:20-54 | two schedules that deliver the same bytes, read them all and see no timeout give the same output, count and partial line |
| `LineProtocol.TimesOutIff` | week55_embedded_debugging_and_testing/protocol.c:47-52 | a poll times out exactly when it finds no byte, a line has been started, and the wrapping counter went from the last byte's tick to now in n ticks with TIMEOUT_TICKS < n < 2^32 |
| `LineProtocol.ElapsedIs` | week55_embedded_debugging_and_testing/protocol.c:47 | the difference of two ticks is the one number below 2^32 that takes the wrapping counter from the one to the other |
| `LineProtocol.PollReadsLines` | week55_embedded_debugging_and_testing/protocol.c:24-45 | a poll that finds bytes answers every complete line of the partial line and the bytes together, numbered in order, keeps what follows, and stops early exactly at a line of 64 bytes or more, dropping 64 and leaving the rest unread |
| `LineProtocol.PollFindsNothing` | week55_embedded_debugging_and_testing/protocol.c:47-54 | a poll that finds no byte changes nothing, or times out and drops the partial line |
| `LineProtocol.LastTickIs` | week55_embedded_debugging_and_testing/protocol.c:25 | over every schedule last_byte_tick is the tick of the last poll that read a byte |
| `LineProtocol.HiAnswered` | week55_embedded_debugging_and_testing/protocol.c:27-36 | a terminal that sends hi is sent 1:hi |
| `LineProtocol.PollDrains` | week55_embedded_debugging_and_testing/protocol.c:38-43 | only an overflow leaves bytes unread, and even then at least one was read |
| `LineProtocol.ExecAfter` | week55_embedded_debugging_and_testing/protocol.c:8-54 | what the hardware had sent before stays in front of the output and changes nothing else |
| `LineProtocol.Protocol.constructor` | week55_embedded_debugging_and_testing/protocol.c:8-13 | an empty state, on hardware that may have sent before |
| `LineProtocol.Protocol.Reply` | week55_embedded_debugging_and_testing/protocol.c:15-18 | writes the string up to its NUL |
| `LineProtocol.Protocol.FinishLine` | week55_embedded_debugging_and_testing/protocol.c:28-36 | terminates, counts, formats and sends the line, and empties the buffer |
| `LineProtocol.Protocol.HandleByte` | week55_embedded_debugging_and_testing/protocol.c:26-44 | one byte in place does what the fold does with it |
| `LineProtocol.Protocol.Poll` | week55_embedded_debugging_and_testing/protocol.c:20-54 | the loop in place is the poll on values, with its status; it times out exactly when it finds no byte, used > 0 and more than TIMEOUT_TICKS lead from last_byte_tick to now |
| `LineProtocol.Protocol.HandleAll` | week55_embedded_debugging_and_testing/protocol.c:8-54 | any schedule of arrivals and polls on an initialised protocol: its state is that of the schedule on values, the output the fold over what was read, read plus unread what arrived, and used < 64 |
| `LinkedList.ReversedTwice` | week32_linked_data_structures/lists.c:82-94 | reversing twice gives the list back |
| `LinkedList.ReversedIndex` | week32_linked_data_structures/lists.c:82-94 | element k of the reversed list is element length - 1 - k |
| `LinkedList.RemoveFirstAt` | week32_linked_data_structures/lists.c:65-76 | removal of the first match takes out that element and no other |
| `LinkedList.RemoveFirstNone` | week32_linked_data_structures/lists.c:78 | without a match nothing changes |
| `LinkedList.QueueIsFifo` | week32_linked_data_structures/lists.c:131-143 | over any run of enqueues and dequeues: what came out, then what is held, is what went in |
| `LinkedList.StackIsLifo` | week32_linked_data_structures/lists.c:111-123 | after any history, values pushed and popped come out reversed and what was held is untouched |
| `LinkedList.StackKeepsBelow` | week32_linked_data_structures/lists.c:111-123 | as long as no more values are taken out than were put in since, allocations failing anywhere, what was held before is still there below the others |
| `LinkedList.DepthIs` | week32_linked_data_structures/lists.c:107-143 | after any run a stack and a queue hold as many values as pushes that could allocate less pops that found something |
| `LinkedList.RunStack` | week32_linked_data_structures/lists.c:107-123 | any run of pushes and pops on a real list, allocations failing anywhere, gives the contents and the values of the stack on sequences |
| `LinkedList.RunQueue` | week32_linked_data_structures/lists.c:127-143 | any run of enqueues and dequeues on a real list, allocations failing anywhere, gives those of the queue on sequences |
| `LinkedList.List.Find` | week32_linked_data_structures/lists.c:65-66 | the search ends on the first match or at the end, with the node before it |
| `LinkedList.List.PushFront` | week32_linked_data_structures/lists.c:37-47 | a node in front, tail set when it is the first |
| `LinkedList.List.PushBack` | week32_linked_data_structures/lists.c:49-60 | a node behind tail |
| `LinkedList.List.Remove` | week32_linked_data_structures/lists.c:63-79 | removes the first match, if any, repairing tail when it was last |
| `LinkedList.List.Unlink` | week32_linked_data_structures/lists.c:67-74 | through the link: one node goes, in the head, middle and last cases |
| `LinkedList.List.Reverse` | week32_linked_data_structures/lists.c:82-94 | the same nodes linked the other way, acyclic, tail last |
| `LinkedList.List.PopFront` | week32_linked_data_structures/lists.c:113-123 | takes the head, and clears tail with the last node |
| `BlockPool.PeakIsMaximum` | week53_constrained_resource_programming/constrained.c:69-97 | over any run of allocs and matched frees: free and held blocks partition the storage, and pool_peak is the greatest number held at once |
| `BlockPool.StepPartition` | week53_constrained_resource_programming/constrained.c:80-97 | one alloc or matched free keeps the partition |
| `BlockPool.Pool.Init` | week53_constrained_resource_programming/constrained.c:69-78 | every block is on the acyclic free list |
| `BlockPool.Pool.Alloc` | week53_constrained_resource_programming/constrained.c:80-88 | fails exactly when all blocks are held, and otherwise hands out one that is not |
| `BlockPool.Pool.Free` | week53_constrained_resource_programming/constrained.c:90-97 | a held block returns to the list; NULL is ignored |
| `BlockPool.Pool.PerformAll` | week53_constrained_resource_programming/constrained.c:69-97 | any run of allocs, frees and writes into held blocks on a fresh pool: the pool stays consistent, in_use is the number of held blocks and peak its greatest value so far |
| `BlockPool.Pool.AllHeld` | week53_constrained_resource_programming/constrained.c:82 | an empty free list means all blocks are held |
| `BlockPool.Pool.Scribble` | week53_constrained_resource_programming/constrained.c:62-64 | whatever a holder writes into its block, the free list is untouched |
| `ByteRing.WindowGrows` | week53_constrained_resource_programming/constrained.c:109-112 | storing at head appends unless 15 bytes wait, which is exactly when head would meet tail |
| `ByteRing.WindowShrinks` | week53_constrained_resource_programming/constrained.c:118-120 | moving tail takes the oldest byte off |
| `ByteRing.Ring.Push` | week53_constrained_resource_programming/constrained.c:107-114 | appends, or refuses exactly when 15 bytes wait |
| `ByteRing.Ring.Pop` | week53_constrained_resource_programming/constrained.c:116-122 | takes the oldest byte, or reports empty exactly when there is none |
| `FixedPoint.MulBound` | week53_constrained_resource_programming/constrained.c:35-38 | a product is at most the exact one and less than one unit below it |
| `FixedPoint.QuotientBound` | week53_constrained_resource_programming/constrained.c:39-42 | the truncating division loses less than one divisor and never overshoots |
| `FixedPoint.LargeQuotient` | week53_constrained_resource_programming/constrained.c:39-42 | a quotient that overflows has a divisor of magnitude at most 1.0, and its wraps are bounded |
| `FixedPoint.DivThenMul` | week53_constrained_resource_programming/constrained.c:35-42 | for all operands of either sign: multiplying a quotient back is within |b|/65536 + 1 units of the dividend exactly when the quotient fits 32 bits, or the dividend is the most negative number and the divisor -1.0 |
| `FixedPoint.DivOverflows` | week53_constrained_resource_programming/constrained.c:39-42 | dividing the largest number by the smallest step and multiplying back does not give it back |
| `FixedPoint.RunRemembers` | week53_constrained_resource_programming/constrained.c:147-151 | after any run integral is the sum of all errors and previous the last of them |
| `FixedPoint.OutputBound` | week53_constrained_resource_programming/constrained.c:153-155 | one output is at most the exact control value and less than three units below it |
| `FixedPoint.PidTracksExactValue` | week53_constrained_resource_programming/constrained.c:145-156 | over any run without 32-bit overflow each output keeps that bound against the exact value of the whole history: rounding does not accumulate |
| `FixedPoint.Pid.Step` | week53_constrained_resource_programming/constrained.c:145-156 | the step in place |
| `FixedPoint.Pid.StepAll` | week53_constrained_resource_programming/constrained.c:145-156 | any run without overflow on a fresh controller: the memory is the history, and every output is within three units below the exact control value of the whole history |
| `RecordParser.SkipThenSplit` | week56_maintaining_long_lived_c_codebases/legacy.c:19-26 | skipping blanks before or after looking for the first = finds the same name and the same rest |
| `RecordParser.LegacyParts` | week56_maintaining_long_lived_c_codebases/legacy.c:17-34 | the legacy scan means the refactored cut |
| `RecordParser.ValuesAgree` | week56_maintaining_long_lived_c_codebases/parser.c:60-66 | the two conversions agree exactly when there is no number, it fits an int, or atoi happens to give 0 |
| `RecordParser.RefactoringPreserves` | week56_maintaining_long_lived_c_codebases/parser.c:34-68 | for every line shorter than 256 bytes whose name fits, both parsers give the same status, name and value exactly when the number fits an int or atoi happens to give 0 for it |
| `RecordParser.OutputsUntouched` | week56_maintaining_long_lived_c_codebases/parser.h:13-15 | a refusal leaves both outputs as they were, whatever they held, exactly unless nameSize > 0, the line is short enough and has an =, and its trimmed name has nameSize bytes or more; the value is left alone always |
| `RecordParser.OutputsTouched` | week56_maintaining_long_lived_c_codebases/parser.c:56-58 | "ab=1" with two bytes of room is refused and turns the name "x" into "a" |
| `RecordParser.ParsersDiffer` | week56_maintaining_long_lived_c_codebases/parser.c:60-66 | "a=9999999999" parses to different results whenever atoi does not happen to give 0 |
| `RecordParser.LineIsRead` | week56_maintaining_long_lived_c_codebases/parser.c:34-68 | what is written is what is read: for every name, every int in decimal with any sign, and any padding with blanks, both parsers give the name and the number back |
| `RecordParser.AcceptedIff` | week56_maintaining_long_lived_c_codebases/parser.c:42-57 | a line is accepted exactly if it is shorter than 256 bytes, has an = and its trimmed name fits |
| `RecordParser.MalformedIsZero` | week56_maintaining_long_lived_c_codebases/parser.c:60-66 | a value without digits is 0 in both parsers |
| `ParserCode.CopyString` | week56_maintaining_long_lived_c_codebases/parser.c:56 | snprintf of a string: the string, cut to the size and terminated; the rest of the buffer, and all of it for size 0, as before |
| `ParserCode.SkipSpace` | week56_maintaining_long_lived_c_codebases/parser.c:11-15 | moves past the blanks and no further |
| `ParserCode.TrimTrailing` | week56_maintaining_long_lived_c_codebases/parser.c:17-21 | overwrites the trailing blanks in place and nothing else |
| `ParserCode.ParseRecord` | week56_maintaining_long_lived_c_codebases/parser.c:35-68 | the refactored parser in its work buffer: status and both outputs, in full, are those of the value-level parser; on a refusal the name changes only for a name that is too long; null arguments included |
| `ParserCode.LegacyParser.ParseRecord` | week56_maintaining_long_lived_c_codebases/legacy.c:9-38 | the legacy parser in its global buffer: return code, outputs and count |
| `ParserCode.LegacyParser.ScanToEquals` | week56_maintaining_long_lived_c_codebases/legacy.c:22-24 | stops at the first = or at the end |
| `ParserCode.LegacyParser.TrimmedName` | week56_maintaining_long_lived_c_codebases/legacy.c:26-28 | the name, terminated and trimmed in place |
| `WireCodec.LoadStored` | week37_portability_and_the_machine_model/portable.c:21-51 | loading a stored number gives it back, at any width |
| `WireCodec.BigEndianPlace` | week37_portability_and_the_machine_model/portable.c:21-36 | byte i of n is the digit of weight 256^(n - 1 - i) |
| `WireCodec.StoreLoaded` | week37_portability_and_the_machine_model/portable.c:21-51 | storing a loaded number gives its bytes back |
| `WireCodec.DecodeEncode` | week37_portability_and_the_machine_model/portable.c:79-105 | decoding an encoded record restores id, score and timestamp, and the name string exactly when the name field holds a NUL |
| `WireCodec.FullNameIsCut` | week37_portability_and_the_machine_model/portable.c:103 | a name of 32 bytes loses its last one |
| `WireCodec.EncodeDecode` | week37_portability_and_the_machine_model/portable.c:79-105 | re-encoding an accepted message gives the same 52 bytes exactly when its name field is NUL-terminated and NUL-padded |
| `WireCodec.NotReencoded` | week37_portability_and_the_machine_model/portable.c:79-105 | an accepted message whose name field is NUL, A, NULs is re-encoded to other bytes |
| `WireCodec.WireLayout` | week37_portability_and_the_machine_model/portable.c:79-88 | the 52 bytes place by place: CREC, version 1, id, score and timestamp most significant byte first, and the name padded with NULs |
| `WireCodec.RefusedIff` | week37_portability_and_the_machine_model/portable.c:92-98 | a message is refused exactly for its first six bytes |
| `WireCodec.StoreBe16` | week37_portability_and_the_machine_model/portable.c:21-25 | stores two bytes, most significant first, and leaves the rest |
| `WireCodec.StoreBe32` | week37_portability_and_the_machine_model/portable.c:26-30 | stores four |
| `WireCodec.StoreBe64` | week37_portability_and_the_machine_model/portable.c:31-36 | stores eight, in a loop |
| `WireCodec.LoadBe16` | week37_portability_and_the_machine_model/portable.c:37-40 | the number of two bytes |
| `WireCodec.LoadBe32` | week37_portability_and_the_machine_model/portable.c:41-45 | of four |
| `WireCodec.LoadBe64` | week37_portability_and_the_machine_model/portable.c:46-51 | of eight, in a loop |
| `WireCodec.RecordEncode` | week37_portability_and_the_machine_model/portable.c:79-88 | writes the 52 bytes into the caller's buffer, every field at its offset |
| `WireCodec.RecordDecode` | week37_portability_and_the_machine_model/portable.c:90-105 | refuses a wrong magic or version, and otherwise reads every field |
| `Utf8.Boundary` | week37_portability_and_the_machine_model/portable.c:122-125 | a valid string splits into two valid ones exactly where no continuation byte stands |
| `Utf8.TruncateIsLongest` | week37_portability_and_the_machine_model/portable.c:119-127 | the cut is within the limit, the prefix and the rest are valid, and no longer valid prefix fits |
| `Utf8.LengthCountsCharacters` | week37_portability_and_the_machine_model/portable.c:109-116 | the count of non-continuation bytes is the number of characters |
| `Utf8.TruncateKeepsCharacters` | week37_portability_and_the_machine_model/portable.c:119-127 | prefix and rest together have the characters of the whole |
| `Utf8.EncodedIsValid` | week37_portability_and_the_machine_model/portable.c:109-116 | the encoding of any code points by the table of RFC 3629 is a valid string of as many characters |
| `Utf8.ValidIsEncoded` | week37_portability_and_the_machine_model/portable.c:109-116 | every valid string is such an encoding |
| `Utf8.TruncateCodePoints` | week37_portability_and_the_machine_model/portable.c:119-127 | on code points: the length is their number, and truncation keeps as many of the first ones as fit the limit |
| `Utf8.Utf8Length` | week37_portability_and_the_machine_model/portable.c:109-116 | the loop counts the non-continuation bytes up to the NUL |
| `Utf8.SafeTruncate` | week37_portability_and_the_machine_model/portable.c:119-127 | the loop stops at the last place within the limit that is no continuation byte |

## Left out

- FixedPoint.PidTracksExactValue: runs in which some 32-bit operation overflows are excluded, because there the C program's behaviour is undefined or implementation-defined.
- ParserCode.LegacyParser.ParseRecord: lines and names that do not fit their buffers are excluded, because the legacy parser checks neither and is undefined on them.
- BlockPool.Pool.Free: a block freed twice or never allocated is excluded, as the program leaves that to its caller.
- EventLoop.Server.AcceptNew: fds of 65536 and above, which the program would store out of bounds, count as failed accepts, because what C does then is undefined.
- HashMap.Map.Put: the doubling of bucket_count and the load test are on unbounded numbers, not on size_t.
- BlockingQueue.SharedQueue.PushBody: the mutex and the condition variables are not objects here; they are the steps of QueueThreads.
- QueueThreads: thread creation and the per-thread item counts that are only printed; the racy counter demonstration of the same file.
- adt.c: tree_destroy, map_destroy and map_stats; the printing visitor.
- evserver.c: socket set-up, the self-pipe and its signal handler (a wake event stands for them), perror output.
- interrupts.c: the transmit side, the UART and SysTick registers, tick_count and the printing loop.
- protocol.c: the hardware layer is a queue of bytes, a log of bytes sent and a clock; hal.h's context pointer is not modelled.
- lists.c: list_destroy, the printing and the timing of traversals.
- constrained.c: the sine table and number printing.
- portable.c: the endianness probe and the demonstrations in main.
- Weeks 01 to 31 and the other programs: demonstrations without a property over unbounded runs, hardware start-up code, deliberately broken code, floating point.
