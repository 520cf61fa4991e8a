# Verified models of five components

This project models the five stateful components of the repository and proves what they promise:

* the **thread pool** (`thread-poll.c`): workers, pushers and the destroyer as a transition system with one
  program counter per thread, its invariant, progress, and an object with the intrusive task list on the heap
  that refines it;
* the **connection pool** (`mysql-connection-poll/connectionpool.cpp`): borrowers, producer and idle scanner as
  a transition system, and an object with mutable connections that refines it;
* the **DNS codec** (`dns.c`): hostname encoder, request assembly, the recursive decoder for compressed names
  and the response parser, on octet arrays with integer cursors, against a specification by label lists and a
  serialiser after RFC 1035, sections 2.3.4, 3.1 and 4.1;
* the **address book** (`address-book.c`): a sorted doubly linked list on the heap with search, deletion and
  record files;
* the **Bloom filter** (`bloom-filter/bloomfilter.h`): the packed bit array, the filter, and the algebra of its
  three hashes.

`DnsExample`, `Hashes.KeyHashes` and `Bloom.StoreKey` are concrete inputs with their literal results.

`dfyconfig.toml` covers all files. Every file holds one module of the same name; `Sums`, `Bits` and
`DoublyLinked` are shared.

## How to read it

**Thread pool.** `ThreadPool` has the states, actions and the invariant `Inv`; `ThreadPoolTheorems` states the
results over every run. Steps are atomic and sequentially consistent, `pthread_cond_wait` releases and sleeps
atomically, wakeups may be spurious, a signal wakes at least one sleeper if there is one, a broadcast wakes
all. No push runs while or after destroy is called, and a task object is pushed once; a callback is one step.
`handed`, `pushed`, `finished` and `lost` are history only. In `ThreadPoolObject.Pool` each method is one step
of one thread, and its contract says that it moves the abstract state exactly as the protocol says; `Control`
and `Conserved` in its preconditions are parts of the invariant that `ThreadPool.StepInv` preserves.

**Connection pool.** All shared data is touched under the mutex, so one action is one locked region. The
setters are called only before `run()`, `run()` is called once before any borrower starts, and the clock is a
parameter that never decreases. Three promises fail, and the model keeps the code as it is and says exactly when:

* the scanner calls `front()` without testing for an empty queue, recorded as `fault`. `ScannerFaultsExactlyWhen`:
  more than `initSize` connections are lent and every queued one has expired. `ScannerCanFault` is a run that
  gets there.
* the scanner notifies nobody after emptying the queue, so the producer may stay asleep on an empty queue.
  `WakeupLostExactlyWhen`: it was asleep, at least `initSize` connections were lent, and every queued one had
  expired. `ProducerCanOversleep` is such a run, `ProducerIsAwake` the guarantee otherwise.
* the comment at line 146 says that waiting borrowers are notified when a connection is returned; the deleter
  notifies nobody. `BorrowerOverlookedExactlyWhen`: the return of a connection while somebody waits is the only
  action after which a borrower sleeps beside a queued connection. `BorrowerCanBeOverlooked` is such a run,
  `BorrowersAreServed` the guarantee otherwise.

**DNS.** `WellFormed` says that labels and pointers starting at an offset form a name, every pointer leading
strictly before the start of its segment, which is what makes the recursion end. It is parameterised by the
`Reader`, the standard or the code. Octets are integers below 256, lengths do not overflow, and the host is
little-endian. The decoder writes no terminator, so its result is the octets up to the returned length. In a
parsed answer the TTL is the upper half of the field, as the code reads it. `inet_ntop` is taken to format its
text before it overwrites the octets it reads. Where the code does not do what the standard means, the condition
is stated:

* the standard uses a 14-bit pointer target, the code only the second octet. `CodeTargetExact`: they agree
  exactly for targets below 256. `FarPointerIsMisread` is a legal message the code misreads.
* the decoder writes a stray dot when the last label is followed by a pointer to a root octet (`Dangling`).
  `DecodedIsName`: otherwise the text is the name. `DanglingNameIsMisread` is a message.
* the owner name of a record is decoded into 128 octets without a test, recorded as `ok`: the run of the model
  ends at a decoder write that would leave the buffer. `OverrunsExactlyWhen`: for names of at most 255 octets
  that happens exactly when an owner name has more than 128 octets of text. `LongNameOverruns` is a legal
  response. The data buffer of 255 octets always suffices for such names (`DataBufferSuffices`).
* the text of an address goes into 4 octets (`sizeof` of an `int` expression) and never fits (`DottedQuadSize`),
  recorded as `inside`; the run of the model goes on as if the buffer held the text. `OverrunsExactlyWhen`: every
  write stays inside exactly when, besides, no record has type 1 and four octets of data. `AddressOverruns` is
  the reply 127.0.0.1 for "a".
* owner names are taken to occupy two octets. `CursorRightExactlyWhen`: that is right exactly for a bare pointer.
  `FullOwnerIsMisread` is a record.
* the assembled request is not compared with the buffer. `MergeRequest`: it fits exactly when header, name and 4
  octets do; with the 1024 octets of line 166 a hostname of 1007 octets does not.
* the encoder accepts labels of any length. `HostnameRoundTrip`: the name decodes exactly when all have fewer than
  192 octets. `WrappedLabelMisparsed` and `LengthsDoNotDecide` are about labels of 256 octets and more.

**Address book.** Characters are signed, and the end of a string reads as the value 0. `Compare` is the order.
Insertion does not write the links of an item when the list is empty, so `ListInsertFront` gives a list exactly
when there was one or the links were null. An empty book writes no file, so `SaveThenLoad` then reads whatever
was there.

**Bloom filter.** The constructor does not clear the array, so every result is relative to the initial bits.
`size_t` has 64 bits and `char` is signed. `HashAP` never takes its other branch because `i % 1` is always 0.

## Model

| member | source | states |
|---|---|---|
| ThreadPool.InitInv | thread-poll.c:95-132 | a new pool satisfies the invariant |
| ThreadPoolTheorems.WorkersAsAsked | thread-poll.c:100-129 | in every reachable state there are exactly as many workers as were asked for, or one if fewer than one was, and as many client threads as there were |
| ThreadPoolTheorems.NewPool | thread-poll.c:103-129 | in a new pool every worker is on its way to the lock, and nothing is queued, pushed, finished or terminated |
| ThreadPool.StepInv | thread-poll.c:56-155 | every step of every worker, pusher and destroyer, and every spurious wakeup, keeps the invariant: mutual exclusion, facts at each program point, work conservation, task conservation, stack order |
| ThreadPool.RunInv | thread-poll.c:56-155 | so does every run under any interleaving |
| ThreadPoolTheorems.NoLostSignal | thread-poll.c:62-88 | before destroy and outside the window between insert and signal, if any worker sleeps then queued tasks are at most the awake workers that are on their way to the list, for any number of workers and pushers |
| ThreadPoolTheorems.DequeueIsSafe | thread-poll.c:76-85 | in every reachable state a worker at the dequeue finds a non-null head, at the unlink the same head it read, and the unlocked `task = NULL` never coincides with a worker between its second terminate test and its unlock |
| ThreadPoolTheorems.LockedRegionsExclude | thread-poll.c:62-85 | in every reachable state at most one thread, whether worker, pusher or destroyer, is between lock and unlock, and it owns the mutex, although the flag and the final clearing are written without it |
| ThreadPoolTheorems.DequeueTakesLatest | thread-poll.c:82-83 | each dequeue takes the most recently inserted task among those still queued and leaves all others |
| ThreadPoolTheorems.RunsAtMostOnce | thread-poll.c:82-88 | a task handed over is in exactly one of: being pushed, queued, held by one worker, finished, dropped by destroy; it finishes at most once, and nothing is dropped before destroy clears the list |
| ThreadPoolTheorems.StepMeasure | thread-poll.c:56-155 | a measure (program-counter ranks plus queued tasks) falls on every step the pool takes by itself; calls and spurious wakeups raise it by a fixed credit |
| ThreadPoolTheorems.RunsAreBounded | thread-poll.c:56-155 | in every run the number of internal steps is bounded by the initial measure and the credits of the external actions |
| ThreadPoolTheorems.QuiescentMeansDrained | thread-poll.c:60-89 | no deadlock: when nothing can move and destroy was not called, the list is empty, all workers sleep and every task ever handed over has finished |
| ThreadPoolTheorems.QuiescentMeansShutDown | thread-poll.c:134-145 | when nothing can move after destroy was called, destroy has returned, every worker has exited and every task was finished or dropped |
| ThreadPoolTheorems.ComesToRest | thread-poll.c:56-155 | from every reachable state the pool left to itself comes to such a rest within as many steps as the measure says |
| ThreadPoolTheorems.PushedTaskRuns | thread-poll.c:147-155 | from every reachable state before destroy any idle client can push any fresh task, and the pool then runs it and every earlier task by its own steps |
| ThreadPoolTheorems.DestroyCompletes | thread-poll.c:134-145 | from every reachable state before destroy with no push under way destroy can be called, and by the pool's own steps it returns and every worker exits |
| ThreadPoolTheorems.SpuriousWakeupAnyTime | thread-poll.c:73 | any sleeping worker may wake at any time and only goes to reacquire the mutex |
| ThreadPoolTheorems.SignalExactly | thread-poll.c:152 | a signal may wake any set of sleepers, at least one if there is one, and wakes exactly that set |
| ThreadPoolTheorems.NoSleepAfterBroadcast | thread-poll.c:64-74 | after the broadcast no worker ever sleeps or commits to sleeping again, in any continuation of the run |
| ThreadPoolTheorems.ShutdownProgress | thread-poll.c:134-140 | after the broadcast every worker step lowers the plain sum of ranks, and while the mutex is free every worker that has not exited can step |
| DoublyLinked.Unhook | thread-poll.c:14-16 | linking the neighbours of an item to each other leaves the others a well-linked list |
| DoublyLinked.HookBefore | address-book.c:59-65 | linking an item before a node gives a well-linked list with the item at that index, and reports whether it became the head |
| TaskList.List.Insert | thread-poll.c:8-13 | the macro puts the item in front of the list; `prev` and `next` stay mutually inverse if and only if the `prev` of the item was null |
| TaskList.List.Delete | thread-poll.c:14-19 | the macro removes exactly the item, wherever it is, keeps the links and clears those of the item |
| ThreadPoolObject.Pool.constructor | thread-poll.c:95-132 | creation gives as many workers as asked for, at least one, all on their way to the lock, an empty list and a free mutex: the initial protocol state |
| ThreadPoolObject.Pool.WorkerStep | thread-poll.c:56-93 | one step of a worker on the heap list is the worker step of the protocol |
| ThreadPoolObject.Pool.TakeHead | thread-poll.c:83 | unlinking through the worker's local pointer removes the head and nothing else |
| ThreadPoolObject.Pool.CallPush | thread-poll.c:147 | a client starts a push with a fresh task |
| ThreadPoolObject.Pool.PusherStep | thread-poll.c:147-155 | one step of a push is the pusher step of the protocol |
| ThreadPoolObject.Pool.CallDestroy | thread-poll.c:136 | the flag is set without the lock |
| ThreadPoolObject.Pool.DestroyerStep | thread-poll.c:137-142 | one further step of destroy is the destroyer step of the protocol |
| ConnectionPool.ScanDeletes | mysql-connection-poll/connectionpool.cpp:160-173 | one pass deletes an expired prefix of the queue, never more than the excess, and stops for a reason |
| ConnectionPool.ScanFaults | mysql-connection-poll/connectionpool.cpp:160-163 | a pass calls `front()` on an empty queue if and only if the excess exceeds the queue and every queued connection has expired |
| ConnectionPool.ScanEmpties | mysql-connection-poll/connectionpool.cpp:160-169 | a pass leaves the queue empty if and only if it was empty or the excess covers it and all have expired |
| ConnectionPool.EarlyBreakIsSound | mysql-connection-poll/connectionpool.cpp:162-172 | on a queue ordered by stamp, stopping at the first unexpired connection misses none |
| ConnectionPool.InitInv | mysql-connection-poll/connectionpool.cpp:64-86 | `run()` establishes the invariant |
| ConnectionPool.StepInv | mysql-connection-poll/connectionpool.cpp:87-186 | every locked region of borrowers, deleter, producer and scanner keeps it: counter, bounds, stamp order, conservation |
| ConnectionPool.RunInv | mysql-connection-poll/connectionpool.cpp:87-186 | so does every run under any interleaving |
| ConnectionPoolTheorems.NewPool | mysql-connection-poll/connectionpool.cpp:76-77 | after `run()` the queue holds exactly `initSize` connections, or none for a negative setting, in creation order, and nobody is inside the pool |
| ConnectionPoolTheorems.TakeExactly | mysql-connection-poll/connectionpool.cpp:87-131 | a borrower that looks at the queue holds its front connection if and only if there is one, gives up if and only if there is none and its last wait timed out, and waits if and only if there is none and it did not; on success everybody is notified |
| ConnectionPoolTheorems.BorrowerStepsExactly | mysql-connection-poll/connectionpool.cpp:97-130 | entering, waking with or without a timeout, and returning a connection: when each can happen and the one thing it changes; a returned connection is stamped now and goes to the end |
| ConnectionPoolTheorems.ProduceExactly | mysql-connection-poll/connectionpool.cpp:140-148 | on an empty queue the producer creates exactly one connection, stamped now, if and only if the count is below `maxSize`, and then wakes everybody; otherwise nothing changes; on a queue that is not empty it falls asleep |
| ConnectionPoolTheorems.OtherStepsExactly | mysql-connection-poll/connectionpool.cpp:119-173 | when a look, the passing of time, a wakeup of the producer and a pass of the scanner can happen |
| ConnectionPoolTheorems.NewIdIsFresh | mysql-connection-poll/connectionpool.cpp:178 | the connection created next is one that was never queued, lent or deleted |
| ConnectionPoolTheorems.PoolGrows | mysql-connection-poll/connectionpool.cpp:140-148 | from every reachable state with an empty queue, an awake producer and a count below `maxSize`, one step of the producer leaves a connection that any borrower inside the pool can take, even one that was asleep |
| ConnectionPoolTheorems.TimeoutGivesUp | mysql-connection-poll/connectionpool.cpp:119-127 | a borrower that waits on an empty queue leaves without a connection once its wait times out and it still finds nothing |
| ConnectionPoolTheorems.PoolConservation | mysql-connection-poll/connectionpool.cpp:87-112 | in every reachable state `connectionCount` is queued plus lent, every live connection is in exactly one place, a deleted one in none, and there are no duplicates in the queue or among borrowers |
| ConnectionPoolTheorems.PoolBounds | mysql-connection-poll/connectionpool.cpp:144-169 | over all runs the count stays between `initSize` and the larger of `initSize` and `maxSize` |
| ConnectionPoolTheorems.ScannerIsSound | mysql-connection-poll/connectionpool.cpp:151-175 | in every reachable state the queue is ordered by idle stamp; what a pass deletes was idle and expired, and afterwards it has faulted, the count is at most `initSize`, or no queued connection had expired |
| ConnectionPoolTheorems.ScannerFaultsExactlyWhen | mysql-connection-poll/connectionpool.cpp:160-163 | a pass calls `front()` on an empty queue if and only if more than `initSize` connections are lent and every queued one has expired |
| ConnectionPoolTheorems.WakeupLostExactlyWhen | mysql-connection-poll/connectionpool.cpp:158-173 | the one action that can leave the producer asleep on an empty queue is a pass that finds it asleep, at least `initSize` lent and every queued connection expired, and then it always does |
| ConnectionPoolTheorems.ProducerIsAwake | mysql-connection-poll/connectionpool.cpp:136-150 | over every run whose passes start with fewer than `initSize` lent, whenever the mutex is free and the queue is empty the producer is not asleep |
| ConnectionPoolTheorems.ProducerCanOversleep | mysql-connection-poll/connectionpool.cpp:167-169 | a concrete run after which the producer sleeps on an empty queue with the pool below `maxSize` |
| ConnectionPoolTheorems.StuckEndsExactlyWhen | mysql-connection-poll/connectionpool.cpp:136-150 | the only actions that end that state are the return of a connection and a wakeup of the producer without notification |
| ConnectionPoolTheorems.ScannerCanFault | mysql-connection-poll/connectionpool.cpp:163 | a concrete run after which the scanner has called `front()` on an empty queue |
| ConnectionPoolTheorems.BorrowerOverlookedExactlyWhen | mysql-connection-poll/connectionpool.cpp:97-130 | the one action that can leave a borrower waiting beside a queued connection is the return of a connection while somebody waits, and then it always does |
| ConnectionPoolTheorems.BorrowersAreServed | mysql-connection-poll/connectionpool.cpp:97-130 | over every run in which nobody waits when a connection is returned, no borrower sleeps while a connection is queued |
| ConnectionPoolTheorems.BorrowerCanBeOverlooked | mysql-connection-poll/connectionpool.cpp:97-102 | a concrete run after which a borrower sleeps beside a queued connection |
| ConnectionPoolObject.Pool.CreateConnection | mysql-connection-poll/connectionpool.cpp:176-186 | appends one new connection stamped with the clock and counts it |
| ConnectionPoolObject.Pool.Run | mysql-connection-poll/connectionpool.cpp:64-86 | refuses empty settings and changes nothing then; otherwise exactly `initSize` connections with their creation stamps, the initial state |
| ConnectionPoolObject.Pool.TryTake | mysql-connection-poll/connectionpool.cpp:87-131 | reports three different results: the front connection and everybody notified, given up after a timeout, or waiting; each is the borrower action of the protocol |
| ConnectionPoolObject.Pool.GiveBack | mysql-connection-poll/connectionpool.cpp:97-102 | the deleter restamps the connection object and appends it, notifying nobody |
| ConnectionPoolObject.Pool.Produce | mysql-connection-poll/connectionpool.cpp:140-148 | waits on a non-empty queue; on an empty one it holds exactly one fresh connection afterwards if and only if the count was below `maxSize`: the producer action of the protocol |
| ConnectionPoolObject.Pool.DeleteExpired | mysql-connection-poll/connectionpool.cpp:160-173 | the loop deletes exactly the prefix the specification of a pass says and reports a call of `front()` on the empty queue |
| ConnectionPoolObject.Pool.ScanIdle | mysql-connection-poll/connectionpool.cpp:158-174 | one pass is the scanner action of the protocol |
| DnsNames.JoinSplit | dns.c:96-99 | joining the pieces between dots gives the hostname back, and no piece has a dot |
| DnsNames.SplitJoin | dns.c:96-99 | splitting joined dot-free labels gives the labels back |
| DnsNames.NextToken | dns.c:99-112 | a call of `strtok` delivers the next non-empty piece or none, and where to continue |
| DnsNames.EncodeSize | dns.c:87-112 | the wire form is one octet longer than the text, less one for each empty piece |
| DnsNames.WrittenSize | dns.c:87-112 | the encoder writes at most `strlen + 2` octets, and fills them if and only if no label is empty; then the last is zero |
| DnsNames.CreateBody | dns.c:87-115 | the label loop writes the encoded non-empty labels and the terminator, and leaves the rest of the buffer untouched |
| DnsDecode.PointerRange | dns.c:198-201 | an octet is a pointer if and only if it is at least 192 |
| DnsDecode.CodeTargetExact | dns.c:223 | the code follows a pointer to the offset the standard means if and only if that is below 256 |
| DnsDecode.CodeReadsRfc | dns.c:203-248 | with such pointers the code reads exactly the labels the standard means |
| DnsDecode.FarPointerIsMisread | dns.c:223 | a legal message with a pointer to offset 256 whose name the code reads as empty |
| DnsDecode.DecodedIsName | dns.c:236-243 | the decoded text is the dotted name if and only if the last label is not followed by a pointer to a root octet |
| DnsDecode.DanglingNameIsMisread | dns.c:236-243 | a legal message in which such a name, "a", is decoded as "a." |
| DnsDecode.TextLength | dns.c:203-248 | the dotted text is two octets shorter than the expanded wire name |
| DnsDecode.TextLimit | dns.c:203-248 | a name of at most 255 octets has at most 253 octets of text and decodes to at most 253, or 254 when it dangles |
| DnsDecode.ParseName | dns.c:203-248 | the recursive decoder ends; it stays inside the output buffer if and only if the text of the name fits behind the first `*len` octets, and then it appends exactly that text, raises `*len` by its length and leaves every other octet of the output alone |
| DnsDecode.ParseLabel | dns.c:230-243 | one turn copies the label, and adds a dot unless a zero octet follows; it stays inside the buffer if and only if both fit |
| DnsDecode.EncodedReadsBack | dns.c:81-117 | an encoded list of labels of 1 to 191 octets is well formed wherever it stands and reads back as that list, for the standard and for the code |
| DnsDecode.CompressedReadsBack | dns.c:220-243 | labels followed by a pointer read back as those labels and the ones the pointer leads to, for the standard and for the code, and exactly when the stray dot appears |
| DnsDecode.DecodedPiecesShort | dns.c:217-245 | whatever the message, no decoded text has 192 octets in a row without a dot |
| DnsDecode.HostnameRoundTrip | dns.c:81-117 | wherever an encoded hostname stands, it decodes to its non-empty labels joined by dots if and only if every label has fewer than 192 octets; without empty labels that text is the hostname |
| DnsMessage.MemoryIsWire | dns.c:72-76 | the stored header fields lie in memory in network order |
| DnsMessage.CreateHeader | dns.c:64-79 | the header in memory: the random id high octet first, then 01 00 for recursion desired, 00 01 for one question, and zeros |
| DnsMessage.HeaderReadsBack | dns.c:257-268 | parsing a header recovers all six fields |
| DnsMessage.MergeRequest | dns.c:119-142 | refuses a zero length and changes nothing then; otherwise no copy leaves the buffer if and only if header, name and 4 octets fit it, and then they lie at the front, the rest up to `len` is zero, and the returned offset is their end |
| DnsMessage.SkipName | dns.c:284-292 | the question loop ends behind the zero octet of the chain of labels |
| DnsMessage.ChainOfEncoded | dns.c:284-292 | on an encoded name that is just behind it |
| DnsMessage.RequestMatchesParser | dns.c:119-142 | for labels of fewer than 256 octets, the parser reads back the query header of an assembled request, and its question loop stops at the offset the assembly returned if and only if the hostname has no empty label, whatever the uninitialised rest of the name buffer holds |
| DnsMessage.WrappedLabelMisparsed | dns.c:107 | a first label whose length is a multiple of 256 gets the length octet zero, and the question loop stops right behind it |
| DnsMessage.LengthsDoNotDecide | dns.c:107 | for longer labels no condition on the lengths is exact: of two hostnames of one label of 257 octets the question loop stops at the offset for one and runs out of the other |
| DnsMessage.MakeRequest | dns.c:64-142 | header, body and assembly run one after the other stay inside the buffer if and only if the request fits it, and then send the id, 01 00, 00 01, six zero octets, the encoded name, and 00 01 00 01 before the returned offset |
| DnsMessage.RequestParses | dns.c:255-292 | from those octets the parser reads the id, flags 0x0100 and one question, and its question loop stops at the offset if and only if the hostname has no empty label |
| DnsMessage.RequestThenParse | dns.c:64-142 | both in one run: the header read back and the cursor behind the question |
| DnsMessage.DataBufferSuffices | dns.c:322-326 | every name of at most 255 octets fits the data buffer, stray dot included |
| DnsMessage.ReadField | dns.c:257 | a loaded and byte-swapped field is its big-endian value |
| DnsMessage.InsideExactly | dns.c:328-337 | all that is written for a record stays inside its buffers if and only if the names fit and it holds no address: the text of four octets and its terminator never fit the 4 octets allocated |
| DnsMessage.ParseRecord | dns.c:304-339 | for one record the name decoder stays inside its buffers if and only if the names fit; then owner name, fields, the upper half of the TTL, canonical name or address text, and a cursor 12 octets plus the data further; whether every write stayed inside |
| DnsMessage.SkipQuestions | dns.c:282-297 | the cursor after skipping all questions |
| DnsMessage.ParseRecords | dns.c:302-341 | for consecutive records the name decoder stays inside its buffers if and only if all names fit; then their answers in reverse order, and the cursor behind the last; every write stays inside if and only if it does for each record |
| DnsMessage.ParseResponse | dns.c:250-344 | the shift and exclusive or isolate the flags modulo 16; if that is not zero, -2 and the caller's structure as it was; else the name decoder stays inside its buffers if and only if all names fit, and then 0, the header, the answers in reverse order and the cursor behind the last record; whether every write stayed inside |
| DnsAddress.DottedQuadSize | dns.c:335 | the text of an address and its terminator take 8 to 16 octets |
| DnsAddress.DottedQuadReadsBack | dns.c:335 | the text determines the address: its four pieces are the octets in decimal |
| DnsLayout.EncodedIsReadable | dns.c:203-248 | a name written out in full is read by the code as the standard means it |
| DnsLayout.CompressedIsReadable | dns.c:220-226 | so is a compressed name, unless it puts labels in front of the root |
| DnsLayout.RecordReadsBack | dns.c:304-339 | what the parser takes from one serialised record is its name, fields, upper TTL half and data; the name decoder stays inside its buffers exactly when the names are short enough, and every write exactly when, besides, the record holds no address |
| DnsLayout.CursorAtRecord | dns.c:309-339 | the cursor stands at the start of each serialised record in turn |
| DnsLayout.QuestionsReadBack | dns.c:282-297 | the parser skips serialised questions to exactly their end |
| DnsLayout.SerialisedExactly | dns.c:255-340 | header, questions and records stand one behind the other at the front of the octets if and only if these start with the serialised message; anything may follow |
| DnsLayout.ParserAccepts | dns.c:250-344 | on every serialised response the parser's layout requirement holds, the header reads back and the cursor ends behind the answers |
| DnsLayout.ParseInvertsLayout | dns.c:299-341 | parsing inverts serialisation: for every list of records the answers are the expected ones in reverse order |
| DnsLayout.ParseMessage | dns.c:250-344 | the parser itself on a serialised response: the name decoder stays inside its buffers if and only if every owner name has at most 128 octets and every canonical name at most 255, and then header, return value, answers and cursor; every write stays inside if and only if, besides, no record holds an address |
| DnsLayout.DataAlwaysFits | dns.c:322-326 | for names of at most 255 octets only the owner name can be too long for its buffer |
| DnsLayout.OverrunsExactlyWhen | dns.c:306-337 | a serialised response with names of at most 255 octets is decoded inside the name buffers if and only if no owner name has more than 128 octets of text, and parsed inside all buffers if and only if, besides, no record has type 1 and four octets of data |
| DnsLayout.LongNameOverruns | dns.c:306-308 | a response with a legal name of three labels of 63 octets and no address, on which the decoder leaves the name buffer |
| DnsLayout.AddressOverruns | dns.c:333-335 | the reply 127.0.0.1 for the name "a", on which all names fit and the address text leaves its buffer |
| DnsLayout.CursorRightExactlyWhen | dns.c:308-309 | the parser continues behind an owner name if and only if that is a bare pointer |
| DnsLayout.FullOwnerIsMisread | dns.c:308-318 | a record with the owner name "a" in full, whose type, class and length are all misread |
| DnsLayout.UsualReply | dns.c:308-326 | a reply to one question whose records point to the name asked for, with aliases in full or compressed, is laid out that way; every answer gets that name, and aliases come back as dotted text |
| DnsLayout.ShortMeans | dns.c:306-325 | the buffers hold 128 octets of owner name and, for type 5, 255 of canonical name |
| DnsExample.HostnameOnTheWire | dns.c:96-112 | the octets the encoder writes for www.baidu.com |
| DnsExample.ParseReply | dns.c:250-344 | a reply of 52 octets with an alias and an address: header, both answers in reverse order field by field, and the cursor, while one octet behind the answers is not read |
| Bits.XorDropLow4 | dns.c:270 | `x >> 4 << 4 ^ x` is `x` modulo 16 |
| Names.CompareSigns | address-book.c:29-42 | the order is total, antisymmetric, and equal only for equal strings |
| Names.CompareTransitive | address-book.c:29-42 | and transitive |
| Names.CompareIsFirstDifference | address-book.c:34-41 | smaller means: equal up to some position, where it has the smaller character, the end counting as 0 |
| Names.CompareName | address-book.c:29-42 | the loop on the raw buffers ends within both strings and computes the order |
| AddressBook.SlotUnique | address-book.c:52-78 | the insertion slot is the only index with smaller names before it and none at it |
| AddressBook.InsertKeepsSorted | address-book.c:43-79 | insertion keeps the book sorted and adds exactly the new person |
| AddressBook.SearchFindsInserted | address-book.c:125-135 | search right after an insertion finds the new record, even among duplicates |
| AddressBook.DeleteUndoesInsert | address-book.c:80-124 | deleting the name just inserted restores the exact original sequence |
| AddressBook.DeleteKeepsSorted | address-book.c:106-124 | deletion removes exactly the first match, or nothing, and keeps the book sorted |
| AddressBook.InsertedNamed | address-book.c:57-66 | a new record goes before the older records of its name and moves no other record |
| AddressBook.SortedIsDetermined | address-book.c:43-79 | a sorted book is determined by the list of records of each name |
| AddressBook.LoadSortsUnion | address-book.c:261-272 | loading any records into any sorted book gives a sorted permutation of the union |
| AddressBook.LoadNamed | address-book.c:261-272 | per name, the file's records arrive in reverse order before the ones already there |
| AddressBook.LoadReversesRuns | address-book.c:240-272 | loading a saved book into an empty one reverses each run of equal names and nothing else |
| AddressBook.LoadDistinct | address-book.c:240-272 | so a book of distinct names comes back unchanged |
| AddressBook.LoadTwice | address-book.c:240-272 | and any book does after saving and loading twice |
| AddressBook.ReadBack | address-book.c:240-272 | the records read from a written file are the persons written, whatever incomplete record follows |
| AddressBook.RecordLies | address-book.c:240-243 | record `i` of a written file lies at octet 27 `i`, 16 octets of name and then 11 of phone |
| AddressBookObject.Book.ListInsertFront | address-book.c:43-79 | the in-place insertion puts the item before the first person whose name is not smaller; the links stay mutually inverse if and only if the list was not empty or the links of the item were null |
| AddressBookObject.Book.Seek | address-book.c:52-78 | the scan stops at the insertion slot, or at the last node when there is none |
| AddressBookObject.Book.ListDelete | address-book.c:80-93 | unlinks exactly the item and keeps the links |
| AddressBookObject.Book.PersonInsert | address-book.c:95-104 | inserts a fresh node |
| AddressBookObject.Book.PersonDelete | address-book.c:106-124 | removes the first person of that name and returns 0, or changes nothing and returns -1 |
| AddressBookObject.Book.PersonSearch | address-book.c:125-135 | returns the first person of that name if and only if there is one |
| AddressBookObject.Book.SaveEntry | address-book.c:222-248 | writes one record per person in list order; for an empty book, or when the file cannot be opened, returns -1 and leaves the file as it was |
| AddressBookObject.Book.LoadEntry | address-book.c:249-275 | inserts the complete records of the file one after the other, or returns -1 and changes nothing when it cannot be opened |
| AddressBookObject.SaveThenLoad | address-book.c:222-275 | saving and loading through the file: runs reversed, identity for distinct names, and the old file's content when nothing was written |
| Hashes.HashBKDR | bloom-filter/bloomfilter.h:78-90 | the loop computes 131 times the polynomial in 131 modulo 2^64 |
| Hashes.BKDRConcat | bloom-filter/bloomfilter.h:78-90 | the hash of a concatenation from the hashes of the parts |
| Hashes.HashDJB | bloom-filter/bloomfilter.h:110-120 | the loop computes the polynomial in 33 seeded with 5381 modulo 2^64 |
| Hashes.DJBConcat | bloom-filter/bloomfilter.h:110-120 | the hash of a concatenation; only the first part carries the seed |
| Hashes.PolyConcat | bloom-filter/bloomfilter.h:83-87 | concatenation shifts the first polynomial by the length of the second string |
| Hashes.HashAP | bloom-filter/bloomfilter.h:91-108 | the loop folds the first form of the step over the string, at even and odd indices alike |
| Hashes.ExtendValue | bloom-filter/bloomfilter.h:99 | a `char` becomes its signed value modulo 2^64 |
| Hashes.SignedAtTheEdge | bloom-filter/bloomfilter.h:99 | the signed values of the octets 0, 7F, 80 and FF |
| Hashes.APXor | bloom-filter/bloomfilter.h:97-104 | the hash is linear: the hash of the exclusive or of two strings of equal length is the exclusive or of their hashes |
| Hashes.APCollision | bloom-filter/bloomfilter.h:97-104 | so such strings collide if and only if their exclusive or hashes to zero |
| Hashes.KeyHashes | bloom-filter/bloomfilter.h:78-120 | the three hashes of one key of six octets above 7F, and its positions among 10000 |
| Bloom.SetMembers | bloom-filter/bloomfilter.h:24-31 | or-ing the mask into its byte adds exactly one index to the set |
| Bloom.ResetMembers | bloom-filter/bloomfilter.h:32-39 | and-ing its complement removes exactly one |
| Bloom.NonzeroByte | bloom-filter/bloomfilter.h:50-54 | a byte is non-zero if and only if one of its eight indices is in the set |
| Bloom.LowestBitFirst | bloom-filter/bloomfilter.h:29 | index 0 is the lowest bit of a byte, index 7 the highest |
| Bloom.BitSet.Covers | bloom-filter/bloomfilter.h:13-20 | the array has a bit for every index below N and at most seven more |
| Bloom.BitSet.Set | bloom-filter/bloomfilter.h:24-31 | adds exactly `x`, and moves the counter whether or not `x` was there |
| Bloom.BitSet.Reset | bloom-filter/bloomfilter.h:32-39 | removes exactly `x`, and moves the counter back, wrapping at zero |
| Bloom.BitSet.Test | bloom-filter/bloomfilter.h:40-46 | tells membership of `x` |
| Bloom.BitSet.Some | bloom-filter/bloomfilter.h:48-56 | tells whether any bit is set, padding included |
| Bloom.AfterSetsExact | bloom-filter/bloomfilter.h:130-140 | after any history of sets a bit is set if and only if it was set initially or is one of the three positions of a key of the history |
| Bloom.BloomFilter.Set | bloom-filter/bloomfilter.h:130-140 | adds exactly the positions of the three hashes of the key modulo N and extends the history |
| Bloom.BloomFilter.Test | bloom-filter/bloomfilter.h:141-154 | true if and only if the positions of all three hashes are set, that is, each was set initially or is a position of an earlier key; so never false for a key that was set |
| Bloom.StoreKey | bloom-filter/bloomfilter.h:130-140 | storing that key in a filter of 10000 bits adds the bits 947, 2510 and 636 |

## Left out

- `mysql.c`, `http-connect.c`, `tcp-server.c`, `tcp-connect.c`, the JavaScript and SQL files: socket, event-loop, file and database-client plumbing.
- `lock.c`: its compare-and-swap is an ordinary function and not atomic, so the count it is meant to keep does not hold as written.
- Thread pool: the worker list, whose nodes the workers free themselves, and the demo program.
- Thread pool: a push that runs while or after destroy is called, and pushing the same task object twice.
- ThreadPoolObject.Pool.constructor: does not model allocation and thread-creation failures.
- ThreadPoolObject.Pool.WorkerStep: does not model the release of finished tasks and exited workers, whose addresses a later allocation could reuse.
- Connection pool: whether connecting to the server succeeds, the singleton, setters and getters, error strings, the destructor, clock units, and setters called after `run()`.
- ConnectionPoolTheorems.BorrowersAreServed: says nothing about how long borrowers wait for a connection.
- `dns.c`: the socket exchange, random ids, printing, `freeDnsAnswer`, and allocation failures.
- DnsMessage.CreateHeader: does not model the NULL argument, refused with -1.
- DnsNames.CreateBody: does not model NULL arguments or failed allocation, refused with -1 and -2.
- DnsMessage.MergeRequest: does not model NULL arguments, refused with -1, nor a `len` beyond the size of the buffer.
- DnsMessage.RequestThenParse: a hostname without any label, for which the encoder writes nothing and the name buffer stays uninitialised, is outside the model; for labels of 256 octets or more only `WrappedLabelMisparsed` and `LengthsDoNotDecide` speak.
- DnsMessage.ParseResponse: requires complete records with two octets for each owner name, which the code relies on without testing it; the NULL argument is not modelled. Fields of an answer that the code leaves uninitialised appear as `Nothing`.
- DnsLayout.ParseInvertsLayout: the TTL comes back only in its upper half, because the code reads no more; only records with a pointer as owner name are serialised, because the code reads no others rightly.
- `address-book.c`: menus, input, printing, and the `size` field, which loading does not update.
- AddressBookObject.Book.PersonInsert: assumes that a new node has null links, which the code does not establish but relies on for the first node; the NULL argument, refused with -1, is not modelled.
- AddressBookObject.Book.PersonDelete: does not model the NULL argument, refused with -1.
- AddressBookObject.Book.SaveEntry: does not model the NULL argument, refused with -1.
- AddressBookObject.Book.LoadEntry: does not model the NULL argument, refused with -1.
- AddressBookObject.Book.ListDelete: does not model freeing the node.
- AddressBook.ReadBack: names without a terminator, which the string functions would read past, are excluded by the type of a person.
- `bloom-filter/bloomfilter.h`: `BitSet::any`, whose comparisons do not express that all bits are set. The counter is modelled, but it is not the number of set bits.
- Bloom.BitSet.Set: an index beyond the array, which the code does not test, is outside the model.
