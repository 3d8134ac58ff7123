# Verified models of lib_

lib_ is a small event-driven networking library in C. This project models the parts of it whose
correctness depends on protocols, invariants and arithmetic, and proves what they promise, for
every input, schedule and run:

* `RwLock.dfy` – the spinning reader/writer lock of `lock.c` as a state machine over the atomic
  accesses of any finite set of threads: bookkeeping of the two words, refinement of an abstract
  lock, the exact number of threads for which mutual exclusion holds, bounded waiting for the
  draining writer, and freedom from deadlock.
* `CryptHash.dfy`, `Probing.dfy`, `HashRuns.dfy`, `ProbeOrder.dfy`, `HashTable.dfy` – the
  linear-probing table of `hmap.c`: its hash, the probe-chain invariant, refinement of a
  first-write-wins map over whole runs, exact effects of deletion and growth, and independence of
  insertion order.
* `Buffer.dfy`, `Framing.dfy`, `Stream.dfy` – the byte buffer and the buffered stream: conservation
  of bytes under short writes and failures, and delimiter framing that does not depend on how the
  input was cut.
* `EventPoll.dfy` – the interest cache of `epoll.c` against the kernel's registrations.
* `Net.dfy`, `Util.dfy` – the transfer loops of `net.c`, and temporary names, temporary files and
  the descriptor limit of `util.c`.

`dafny verify dfyconfig.toml` checks all of it.

Code that updates objects in place is modelled by classes and arrays with methods, each proved
against a function of the old state; the run theorems are about those functions, and
`HashTable.Play`, `Stream.RunOutput` and `Stream.RunInput` state them of the objects themselves.
System calls and the allocator are the environment: what they will return is an input, for reads and
writes a script of outcomes, one for each call.

## Where the code and its intent differ

The models follow the code. For each point the exact domain of the intended behaviour is proved.

* `buffer_write` stores at the read position although the header draws the writable region at the
  write position: an append exactly when nothing is unread (`Buffer.WriteAppendsExactly`).
* `buffer_new` documents the requested size but leaves the size 0 for every nonzero request
  (`Buffer.ByteBuffer.constructor`).
* `buffer_vprintf` loses the last byte to the terminator when the text just fits
  (`Buffer.VprintfAppendsExactly`).
* `stream_fill` counts the surplus of an overflowing read twice and stores it over the oldest unread
  bytes (`Stream.BufferedStream.Fill`, `Stream.FillAppendsExactly`).
* `_expand` neither rehashes nor clears the new half: a key survives exactly when its new start is
  not behind its place, or the new half happens to look in use all the way round
  (`Probing.FoundAfterGrowthExactly`).
* `khlist_del` cuts probe chains and reports an index for keys that are not there
  (`Probing.FoundAfterErase`, `HashRuns.CutChainDuplicates`, `HashRuns.DelAbsent`).
* `eventpoll_apply` keeps `last_mask` on removal: a removed event never gets back into the kernel
  (`EventPoll.ApplyExactly`, `EventPoll.SilentLoss`).
* `fd_limit` can wrap around below small limits, and then never ends or sets a limit above the one
  asked for (`Util.SearchEndsExactly`, `Util.WrappedLimitExceedsMax`).
* The reader count is an `int`: mutual exclusion needs at most 2^32 threads (`RwLock.ExclusionExact`).
* A draining writer waits for a bounded number of turns, a reader does not: writers that keep coming
  can keep it out for ever (`RwLock.DrainingWriterEnters`, `RwLock.ReaderStarves`).

## Model

| member | source | states |
|---|---|---|
| RwLock.AccessKeepsWords | lock.c:16-43 | each access changes `read` and `write` exactly as its thread's passage in or out of the announced and holding regions requires; a reader enters only with the flag clear |
| RwLock.StepKeepsInv | lock.c:16-43 | every access of every thread keeps `read` equal, modulo 2^32, to the number of threads between increment and decrement, and `write` equal to 1 exactly when one thread drains or writes |
| RwLock.ReachableInv | lock.c:11-43 | that bookkeeping holds after every schedule of any number of threads |
| RwLock.StepSimulates | lock.c:16-43 | every access is a step, or a stutter, of an abstract lock that admits a reader only without writers and a writer only into an empty lock |
| RwLock.RunSimulates | lock.c:16-43 | every run is, step by step, a run of the abstract lock |
| RwLock.RunExclusive | lock.c:16-43 | with at most 2^32 threads, at most one writer is ever inside and never together with a reader |
| RwLock.WordWraps | lock.c:21-38 | with more threads a state is reachable in which 2^32 readers and a writer are inside together |
| RwLock.ExclusionExact | lock.c:16-43 | mutual exclusion holds in all runs if and only if there are at most 2^32 threads |
| RwLock.StandsWhereAsked | lock.c:16-43 | over every run a thread in wlock or inside for writing asked to write at its latest turn from outside, and a thread in rlock or inside for reading asked to read |
| RwLock.ComesAndGoes | lock.c:16-43 | after its own turn a thread is outside exactly when it was inside before; from outside a turn takes it into the function it asked for; the turns of others do not move it |
| RwLock.ReadersOnlyShrink | lock.c:16-39 | while one thread keeps the write flag the set of readers inside only shrinks, over whole runs |
| RwLock.DrainingWriterEnters | lock.c:16-39 | bounded waiting for every schedule: a draining writer has been inside by its first turn after every other thread has had three turns, whatever the order and the number of threads |
| RwLock.ReaderFollowsFlags | lock.c:16-28 | for every schedule a reader in rlock has been inside if and only if the write flags it saw at its own turns take it there, and until then they alone decide where it stands |
| RwLock.ClearFlagsEnter | lock.c:16-28 | turns at which the flag is clear bring a reader inside in at most four, in exactly as many as its place in rlock needs |
| RwLock.ReaderStarves | lock.c:16-43 | no bounded waiting for readers: for every n a schedule from the initial state gives the reader n + 1 turns and a writer 4 * n, and the reader is never inside |
| RwLock.CanEnter | lock.c:16-43 | from every reachable state every trying thread can be brought inside by a schedule whose length is bounded by the announced and re-checking readers plus 8 |
| CryptHash.PlacesDiffer | hmap.c:25-32 | the 0x500 assignments of the nested loop go to 0x500 different entries |
| CryptHash.SeedFits | hmap.c:28-30 | no intermediate product of the generator exceeds 32 bits |
| CryptHash.InitCryptTable | hmap.c:23-35 | entry idx1 + 0x100 * i is built from generator states 10 * idx1 + 2 * i + 1 and + 2; the table goes through 0x500 single assignments, the k-th to entry Place(k) |
| CryptHash.KnownEntries | hmap.c:23-35 | the first entries of the three rows the hash uses, as numbers |
| CryptHash.HashString | hmap.c:37-48 | the loop computes the fold of the mixing step over the bytes, with table indices in range for the three kinds; the lemmas on that step below fix what it is |
| CryptHash.HashConcat | hmap.c:37-48 | hashing a concatenation continues from the state after the first part |
| CryptHash.HashFoldsCase | hmap.c:42-46 | strings that differ in letter case only, position by position, hash alike from every state |
| CryptHash.HashFits | hmap.c:39-45 | both seeds stay 32-bit words |
| CryptHash.SameLetterExactly | hmap.c:43 | two bytes fold to the same one if and only if they are equal or are 32 apart with the smaller one in 65..90 |
| CryptHash.UpperLetters | hmap.c:43 | the 26 lower-case letters fold to the upper-case ones, every other byte stays |
| CryptHash.XorBit | hmap.c:44 | bit by bit the mixing operation is an exclusive or of the low bits |
| CryptHash.XorInverts | hmap.c:44 | mixing the same word in twice takes it out again |
| CryptHash.ReadsOneRow | hmap.c:44 | the hash of one kind depends on one row of 0x100 entries only |
| CryptHash.LastEntryDecides | hmap.c:42-46 | after the same characters, two last characters hash alike if and only if their two table words are equal, also across two tables the earlier characters cannot tell apart |
| CryptHash.SeedsDifferByCharacter | hmap.c:45 | two characters mixed into one state: the second seeds differ by the difference of the folded characters plus that of the first seeds, modulo 2^32 |
| CryptHash.SeedsDifferByState | hmap.c:44-45 | one character mixed into two states of equal seed sum: equal first seeds, second seeds that differ by 33 times the old difference, modulo 2^32 |
| CryptHash.MixFromZero | hmap.c:44-45 | from seeds 0 the first seed is the table word and the second adds the character and 3 |
| CryptHash.ShortHashes | hmap.c:39-48 | the hash of the empty string, and the word that recovers the table entry from the hash of one character |
| Probing.LookupMeets | hmap.c:82-90 | what each outcome of the probe loop means: the slot it stops on and that all slots before it are in use by other keys |
| Probing.StoredIsFound | hmap.c:74-92 | under the probe-chain invariant every stored key is found at its own slot |
| Probing.AbsentIsNotFound | hmap.c:74-92 | a fingerprint that is not stored is never found, and the probe goes all the way round exactly when every slot is in use |
| Probing.PutKeepsProbeable | hmap.c:107-129 | inserting at the slot where the probe stopped keeps the chain invariant and uniqueness |
| Probing.ErasedIsGone | hmap.c:131-153 | a deleted key is not found any more |
| Probing.FoundAfterErase | hmap.c:131-153 | after a deletion another stored key is found if and only if the freed slot is not on its path; otherwise its probe stops at the freed slot |
| Probing.EraseKeepsProbeable | hmap.c:131-153 | the invariant survives a deletion if and only if no other entry's path runs over the freed slot |
| Probing.FoundAfterGrowth | hmap.c:94-105 | whatever the new half holds, a key whose new start is at or before its place is still found |
| Probing.FoundAfterGrowthExactly | hmap.c:94-105 | after a full table has grown, whatever the new half holds, a key is found if and only if its new start is at or before its place, or every slot of the new half on the way round is in use by another key |
| Probing.ClearedHalfLosesKeys | hmap.c:94-105 | with a cleared new half exactly the keys whose new start is at or before their place are found |
| Probing.LookupInHalf | hmap.c:115-123 | in a table grown from one that was full without the key, the probe finds what it finds in the new half alone, from where it enters that half |
| Probing.PutIsFound | hmap.c:74-129 | a get from the same start finds what a set has just stored |
| HashRuns.NeedsRoomExactly | hmap.c:115-123 | a set asks for growth exactly when the key is new and there are as many keys as slots |
| HashRuns.StepSimulates | hmap.c:74-153 | set, get and del that stay in their domain answer and act as the map's operations |
| HashRuns.RunRefines | hmap.c:74-153 | from any table representing a map, every run of sets, gets and chain-preserving deletes answers as the map does and ends representing the final map |
| HashRuns.FirstWriteWins | hmap.c:50-129 | from an empty table every run of sets and gets with at most `size` distinct fingerprints is answered as by a first-write-wins map, and the table ends up holding it |
| HashRuns.DelAbsent | hmap.c:139-152 | deleting an absent key changes no lookup from any start; it is reported missing exactly when the table is full |
| HashRuns.CutChainDuplicates | hmap.c:107-153 | after a deletion on a key's path, setting that key stores it a second time |
| ProbeOrder.PlacesCommute | hmap.c:107-129 | two adjacent insertions commute, in occupied slots and in total displacement |
| ProbeOrder.SetPlaces | hmap.c:107-129 | setting a new key occupies exactly the first free slot from its start |
| ProbeOrder.InsertionOrderIrrelevant | hmap.c:107-129 | inserting the same new keys in any two orders puts the same slots in use and steps over the same number of used slots in all |
| HashTable.KeyFoldsCase | hmap.c:74-78 | strings that differ in letter case only are the same key, so get, set and del treat them alike |
| HashTable.KeyReadsRows | hmap.c:75-77 | the start comes from row 0 of the hash table, the two stored words from rows 1 and 2 |
| HashTable.SetSpecIsApply | hmap.c:94-129 | a set without growth is the map step; a set that grows keeps every old slot in place |
| HashTable.GrowingSet | hmap.c:119-128 | a set that finds the table full returns -1 exactly when allocations run out or, in the first new half that is not full of other keys along the probe, the probe meets the key's own words; otherwise it returns a new slot that holds the key, where a get finds it; old slots never change |
| HashTable.SetGrows | hmap.c:115-128 | how often a set grows the table, and that nothing but the returned slot differs from the grown table |
| HashTable.SetIntoClearHalf | hmap.c:94-128 | when nothing in the new half looks in use: the exact slot, the new size and every slot of the result |
| HashTable.KhList.constructor | hmap.c:50-67 | a new table of any size has all slots cleared and the hash table filled |
| HashTable.KhList.Probe | hmap.c:80-90 | the circular loop computes the probe function and terminates |
| HashTable.KhList.Get | hmap.c:74-92 | returns the key's slot and value exactly when the probe finds it, otherwise -1 |
| HashTable.KhList.Expand | hmap.c:94-105 | doubles the table, copies the slots in place and leaves the new half as allocated |
| HashTable.KhList.Set | hmap.c:107-129 | -1 for a stored key or a refused allocation, the first unused slot otherwise, retrying after every growth; a returned slot holds the key and a get finds it |
| HashTable.KhList.Del | hmap.c:131-153 | clears the slot where the probe stopped, the key's or an unused one, and returns its index; -1 only from a full table |
| HashTable.Play | hmap.c:74-129 | any sequence of set and get calls on strings against an empty object returns what a first-write-wins map returns, and leaves in the object exactly the slots of the value-level run, which represent that map |
| Buffer.WriteAppendsExactly | buffer.c:75-86 | a write is an append for every data of its length if and only if nothing is unread or the length is 0 |
| Buffer.OverwriteAt | buffer.c:75-86 | byte by byte, the data lies over the front of the bytes counted in |
| Buffer.AppendedAt | buffer.c:139-153 | byte by byte, the text, with a zero in its last place exactly when it takes up all the room |
| Buffer.FirstIndexIs | buffer.c:112 | the delimiter is found exactly at its first occurrence |
| Buffer.PrintfAppendsExactly | buffer.c:139-153 | formatted text is appended whole if and only if it is shorter than the room, empty, or ends in a zero byte |
| Buffer.VprintfAppendsExactly | buffer.c:135-156 | the same in terms of the buffer before the call, retries and growth included |
| Buffer.ByteBuffer.constructor | buffer.c:12-31 | an empty buffer, of the default size only when 0 is requested |
| Buffer.ByteBuffer.Extend | buffer.c:40-57 | unread bytes survive success and failure; compaction alone does when it frees enough, otherwise success leaves exactly the requested space; 0 bytes on an empty buffer fail and free the block |
| Buffer.ByteBuffer.Read | buffer.c:60-72 | hands out the oldest unread bytes in order, as many as there are up to the request |
| Buffer.ByteBuffer.Write | buffer.c:75-86 | the bytes behind the unread ones are counted in and the data overwrites the front of the unread bytes; on a failed allocation nothing changes |
| Buffer.ByteBuffer.Yield | buffer.c:109-127 | hands out the prefix that ends at the first delimiter, in place, or nothing |
| Buffer.ByteBuffer.Vprintf | buffer.c:135-156 | appends the text cut to the final room, after any number of refused allocations |
| Buffer.WriteThenRead | buffer.c:60-86 | a write into an empty buffer succeeds exactly when it fits or the allocation is granted, and reads cut in any way return exactly as much of the data as they ask for together, the rest staying unread |
| Framing.FramesConserve | buffer.c:109-127 | records and rest put together are the input |
| Framing.RecordEndsAtFirstDelimiter | buffer.c:109-127 | every record ends with the delimiter and contains it nowhere earlier |
| Framing.FirstIndexStable | buffer.c:112 | a delimiter once found stays the first when more bytes arrive |
| Framing.FramesResume | buffer.c:109-127 | framing can be suspended anywhere: only the unfinished rest matters |
| Framing.RunFollows | stream.c:184-211 | along every interleaving of arrivals, yields and extensions, records and unread bytes are on the way through the framing of the whole input |
| Framing.YieldTakes | buffer.c:109-127 | a yield takes everything up to the end of the first delimiter, and nothing when there is none |
| Framing.YieldsDrain | buffer.c:109-127 | enough yields in a row hand out every record and leave no delimiter unread |
| Framing.ChunkingIrrelevant | stream.c:184-211 | consumers of the same bytes end with the same records and rest however the bytes were cut and the yields interleaved |
| Stream.BufferedStream.Writev | stream.c:98-118 | the outcome the environment has in store decides: that prefix of the offer reaches the sink, or nothing does, the error is noted and EAGAIN asks for polling |
| Stream.LoopExactly | stream.c:290-313 | the write loop accepts what the calls before the first refusal take together, up to the total, and ends on that refusal exactly when something is left to offer |
| Stream.NoCallTooMany | stream.c:290-301 | a loop that gets everything accepted makes no call beyond the least number that has room for it |
| Stream.BufferedStream.Advance | stream.c:302-312 | after a short write the vectors describe exactly what is left, the total shrinks by what was written, and as much of it as was unread leaves the buffer |
| Stream.BufferedStream.WriteDirect | stream.c:284-313 | the sink grows by exactly the accepted number of the unread bytes and then of the data, the unread bytes shrink by their part of it, 0 is returned exactly when that is a nonzero everything, and a failure notes the last call's error |
| Stream.BufferedStream.WriteRaw | stream.c:272-314 | data shorter than the free space is stored at the read position, anything else goes through the direct loop |
| Stream.BufferedStream.Write | stream.c:317-331 | data that fits overwrites the unread bytes; otherwise exactly what writev accepts of the unread bytes and the data reaches the sink, and 0 means all of both |
| Stream.BufferedStream.Flush | stream.c:334-346 | the sink grows by exactly what writev accepts of the unread bytes; 0 exactly when that is all of them |
| Stream.BufferedStream.Printf | stream.c:368-377 | appends the formatted text as the buffer does |
| Stream.BufferedStream.Fill | stream.c:184-211 | what fits the free space is appended; past that the whole count and then the surplus are counted in over whatever the memory held, and the surplus lands on the oldest unread bytes; which of the two writes succeed is fixed by the buffer and the two allocations, granted or refused |
| Stream.FillAppendsExactly | stream.c:204-207 | an overflowing fill appends what was read, whatever the memory it counts in held, if and only if the buffer had nothing unread and size 0, the first allocation is refused and the second granted |
| Stream.BufferedStream.Yield | stream.c:392-394 | yields the record that ends at the first delimiter |
| Stream.RunOutput | stream.c:272-377 | every run of appends, writes and flushes, over every script of short writes and failures, leaves the stream and returns codes exactly as the value-level run; sink and unread bytes have grown by the bytes taken |
| Stream.RunConserves | stream.c:272-346 | in every such run the sink followed by the unread bytes grows by the concatenation of what the steps took, in order, and the sink only grows |
| Stream.FlushedRun | stream.c:334-346 | a run followed by a flush has everything it took in the sink exactly when that flush returns 0 |
| Stream.FlushExactly | stream.c:334-346 | a flush succeeds if and only if what is unread fits the calls before writev first refuses, and moves exactly as much as fits |
| Stream.RunInput | stream.c:184-211 | over every run of fills of what fits, yields and extensions the stream object and the records end as the value-level run; from an empty stream that is the framing of the bytes delivered |
| Stream.InRunFrames | stream.c:184-211 | a run of the stream is a run of the framing consumer over exactly the delivered parts of the chunks |
| Stream.FittingExactly | stream.c:184-211 | a fill delivers all that has arrived, or as much as there is room for |
| Stream.RoomyRun | stream.c:184-211 | a buffer with room for the whole input is delivered all of it, however it is cut |
| Stream.StreamsAgree | stream.c:184-211 | two streams of whatever sizes to which the same bytes were delivered, both yielded dry, have yielded the same records and hold the same rest |
| EventPoll.ApplyEvent | epoll.c:92-130 | one apply: what it does to the event's cache, to its registration and to all others |
| EventPoll.WantedExactly | epoll.c:96-110 | every mask has exactly one interest: input for bit 0, output for bit 1, hang-up, error and edge triggering with either, and no other bit |
| EventPoll.ApplyAnywhere | epoll.c:92-130 | an apply in any state of cache and kernel: what the kernel is told, bit by bit, the EEXIST fallback, and that it fails only where the cache claims a registration the kernel lacks |
| EventPoll.FiredIsTold | epoll.c:111-128 | after a poll has reported an event the next apply tells the kernel, whatever the kernel holds |
| EventPoll.ReadyBits | epoll.c:150-163 | reading and writing are reported bit by bit unless there is an error or a hang-up; anything else is an error |
| EventPoll.NextKeepsInv | epoll.c:92-168 | every request, apply and poll round keeps every event's cache agreeing with the kernel, or lost if it was removed |
| EventPoll.CacheAgrees | epoll.c:92-168 | in every run up to an event's first removal `last_mask` is 0 exactly when it is unregistered, and apply gives the kernel, bit by bit, the interest the mask stands for although polls overwrite the cache |
| EventPoll.RequestIsTold | epoll.c:92-168 | after any run a new mask, applied, is what the kernel knows of a never removed event, and nothing else changes |
| EventPoll.FireReports | epoll.c:148-166 | what a poll round reports, and that it changes neither the kernel nor another event |
| EventPoll.ApplyExactly | epoll.c:92-130 | apply gives the kernel the requested interest if and only if the event was never removed or nothing is requested, and when it reports success |
| EventPoll.RemovedForEver | epoll.c:111-128 | a removed event is registered in no later state of any run |
| EventPoll.SilentLoss | epoll.c:111-118 | an event removed and asked for again: success is reported and nothing is registered |
| EventPoll.Poller.Apply | epoll.c:92-130 | the method computes the cache decision, the control calls with the EEXIST fallback, and the result |
| EventPoll.Poller.Poll | epoll.c:148-166 | every event of a batch gets its reported mask and the default cache value |
| Net.Descriptor.Writen | net.c:144-156 | the sink grows by exactly what the calls move of the block; the size is returned exactly when that is all of it, -1 otherwise |
| Net.WriteAllExactly | net.c:144-156 | interruptions do not matter; everything up to the room before the first failing call is delivered, and the loop fails exactly when that call is needed |
| Net.Descriptor.Readn | net.c:130-142 | stores exactly what the calls move from the source, in order, and leaves the rest of the buffer alone; the count is returned unless a call failed |
| Net.ReadMovesExactly | net.c:130-142 | everything asked for and available is stored, up to the room before the first failing call |
| Net.ReadEndsExactly | net.c:130-142 | no failure exactly when all that was asked for was available and had room, or a read before the failing one came to see the end of the input |
| Util.NamesAgree64 | util.c:91-98 | two names of one length are equal if and only if the seeds agree on the low min(5 * len, 64) bits |
| Util.Letter | util.c:96 | every letter lies in A..P or a..p |
| Util.NameAt | util.c:91-98 | letter i shows the five bits from bit 5 * i on: A to P for 0 to 15, a to p for 16 to 31 |
| Util.RenamedAt | util.c:91-98 | exactly the run is rewritten, its i-th byte by letter i of the seed |
| Util.MakeTempName | util.c:91-98 | writes the name of the seed into exactly its letters |
| Util.RunUnique | util.c:101-115 | the run of X that is rewritten is determined by the template |
| Util.Tempfd | util.c:101-127 | every attempt opens the template with exactly the maximal run of X before the suffix, never index 0, rewritten by its own seed; the last name stays and the result is that of the attempt that ends the retries |
| Util.RetriesExactly | util.c:104-126 | at most 100 names are tried, another one after each that is taken and after no other; the result is the last try's descriptor, or -1 |
| Util.SearchEndsExactly | util.c:60-67 | the search ends for every kernel if and only if max % 128 does not exceed the old limit |
| Util.WrapsOtherwise | util.c:62-67 | otherwise, when every limit down to max % 128 is refused, the next subtraction wraps to 2^64 less 128 plus that |
| Util.WrappedLimitExceedsMax | util.c:62-67 | a search that wrapped and still ends has set a limit above the one asked for |
| Util.SettlesOnLargest | util.c:60-70 | a search that does not wrap settles on the largest acceptable limit, or on the old one |
| Util.FdLimit | util.c:55-73 | the loop settles on the first tried limit that is not above the old one or is accepted, wrap-around and conversion to int included; unless it wraps, that is the largest max - 128 * k above the old limit that the kernel accepts, else the old limit |
| Util.AsIntExactly | util.c:69-72 | the int returned is the one congruent to the limit modulo 2^32 |

## Left out

- RwLock: weak memory orders; every access is one sequentially consistent step, and the fences in the spin loops are not steps.
- mtx_lock and mtx_unlock: the test-and-set loop is the first loop of wlock; its exclusion is the part of the bookkeeping about the write flag.
- HashTable.KhList.constructor: failed allocations.
- HashTable.KhList.Probe: tables of size 0, where the source divides by zero.
- HashTable.KhList.Set: tables that would grow to 2^32 slots, where the size field wraps; the model treats that allocation as refused.
- HashRuns.FirstWriteWins: assumes that equal fingerprints imply equal start slots, as the table itself does.
- Buffer.ByteBuffer.constructor: failed allocations, which make buffer_new return a null pointer.
- Buffer.ByteBuffer.Extend: position sums of 2^32 and more, which wrap in the source.
- Buffer.ByteBuffer.Vprintf: format interpretation, a negative result of vsnprintf, the reuse of the argument list after va_end, and an allocator that refuses for ever, for which the source does not return.
- Stream.BufferedStream.WriteDirect: transfers of 2^31 bytes and more, whose count does not fit the source's int.
- Stream.RunOutput: an append that is not shorter than the free space, and a write that would overwrite unread bytes, are not performed; their effect is stated by Vprintf and Write.
- Stream.RunInput: fills that overflow the free space; their effect is stated by Fill.
- EventPoll.Poller.Poll: the callbacks; in runs they are the steps between two rounds of the loop.
- EventPoll: control calls that fail for other reasons than a missing or an existing registration.
- Net.Descriptor.Writen: infinitely many interruptions, under which the source does not return; a script of calls that has run out goes on failing.
- Net.Descriptor.Readn: the same infinitely many interruptions.
- Util.Tempfd: the randomness of the seed, and a suffix as long as the template, for which the source reads before its start.
- Util.FdLimit: searches that never end, under which the source does not return.
- stream_read beyond the buffered bytes and stream_seek: their success tests are inverted, so they have no useful contract.
- The pending queue of eventloop.c: its empty test also matches a queue of one.
- Sockets, addresses, listeners, connectors, threads, logging, timers, signals and pid files: wrappers over system calls.
