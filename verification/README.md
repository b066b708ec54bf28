# Proofs about the algorithms and protocols of the contract library and its libc++ port

This project models the parts of the repository that compute something hard, and proves what they are for. Each
module follows one component:

- `Primes`, `NextPrime`: the prime search behind every rehash. The wheel modulo 210, the trial division along it, and
  the reason why the search ends.
- `Unicode`, `UnicodeLaws`, `Converters`: the converters between UTF-8, UTF-16 and UCS-4 with their cursors, results,
  header modes and length functions. One step function describes all six converters; the laws (resumption, round trips,
  exact acceptance) are proved about it once, and every loop is proved to follow it.
- `HashTable`, `DebugIndex`, `DebugTables`, `DebugState`, `DebugDb`: the debug iterator database. Real nodes, links,
  bucket arrays and growable arrays; every operation, and every run of operations from the empty database, is proved
  to refine a map from iterator to optional container.
- `SharedMutex`, `RecursiveTimedMutex`, `CallOnce`, `SharedCount`: lock and reference count protocols as interleaved
  atomic steps of any number of threads; the results hold in every reachable state.
- `CaseFold`: the compiler from a case mapping to straight-line code, with the meaning of the emitted statements.
- `MixedRadix`, `GSlice`: the odometer that enumerates a multi-dimensional index space.
- `Varint`, `DataStream`, `WireFormat`, `Streams`: serialization over a recursive universe of types, as a byte layout,
  as a relation between bytes and values that decoding follows on every input, and as the streams that write and read
  it.
- `Names`: 64-bit names of thirteen characters.
- `Table`: the typed table over a byte-keyed store.
- `FlatMemory`: the page-growing allocator and the byte loops over flat memory.
- `Arith`, `Bytes`, `Options`: shared helpers.

Conventions. Words are naturals with explicit wrap-around. Shifts and masks are written as multiplication, division and
remainder, and an OR of fields that do not share bits as an addition. A failed check of the library is an `Aborted` or
`None` result. Where the documentation and the code differ, the model follows the code: the message of the key check in
`map.hpp` says "smaller than 32", and the code accepts 32.

The concurrency results assume sequentially consistent steps. The single notification in `unlock_shared` at a saturated
count is not enough for arbitrarily many threads; `SharedMutex.WakeupsNeverLostIff` states exactly for how many it is.
`gslice` enumerates all its positions exactly if their number fits a word; for every larger number that does not wrap
to zero its loop writes behind the last slot. `datastream::write` compares two signed 32-bit numbers, so packing works
exactly for encodings of less than 2^31 bytes. The decoder from UTF-8 to UTF-16 compares a lead byte with the largest
code, so it honours exactly the largest codes below 0x80 and from 0xC3 on.

## Model

| member | source | states |
|---|---|---|
| NextPrime.NextPrime | libraries/libc++/libcxx/src/hash.cpp:178-568 | terminates for every n and returns the least prime that is at least n, and 0 for 0 |
| NextPrime.TrialDivide | libraries/libc++/libcxx/src/hash.cpp:199-558 | the trial division from 11 on, first by the small primes and then along the wheel, answers whether its candidate is prime |
| NextPrime.WheelGap | libraries/libc++/libcxx/src/hash.cpp:225-556 | the increments +10, +2, +4, ... step from each number coprime to 210 to the next one, in every plane, and skip none |
| NextPrime.IndexStep | libraries/libc++/libcxx/src/hash.cpp:79-130 | the table of residues and the increments of the unrolled tests are the same wheel, which closes after 210 |
| NextPrime.SmallGap | libraries/libc++/libcxx/src/hash.cpp:24-77 | no prime lies between two neighbours in the table of small primes |
| NextPrime.SmallAnswer | libraries/libc++/libcxx/src/hash.cpp:183-185 | up to 211, lower_bound in the table of small primes is the least prime that is at least n |
| NextPrime.FirstCandidate | libraries/libc++/libcxx/src/hash.cpp:192-198 | the first candidate is at least n and no prime lies before it |
| NextPrime.Advance | libraries/libc++/libcxx/src/hash.cpp:559-567 | moving to the next wheel entry after a composite candidate passes no prime and stays below any known larger prime, so the search ends |
| Primes.PrimesUnbounded | libraries/libc++/libcxx/src/hash.cpp:197-567 | above every number there is a prime, the reason why the outer loop ends |
| Primes.PrimeByTrialDivision | libraries/libc++/libcxx/src/hash.cpp:209-213 | a number without divisor below i whose quotient by i is smaller than i is prime |
| Primes.SkipComposites | libraries/libc++/libcxx/src/hash.cpp:204-224 | testing only potential primes misses no divisor |
| GSlice.GSlice.constructor | libraries/libc++/libcxx/src/valarray.cpp:18-52 | for all sizes: every allocated slot holds its position; the slots are all positions in row-major order exactly if the product of the sizes fits a word; the loop writes outside exactly if the product does not fit and does not wrap to zero |
| GSlice.GSlice.Init | libraries/libc++/libcxx/src/valarray.cpp:18-52 | the same for the loop itself: fills slot k with start plus the stride-weighted sum of index vector k for every allocated slot, and says exactly for which sizes these are all vectors and for which the next write is outside |
| GSlice.GSlice.SlotCount | libraries/libc++/libcxx/src/valarray.cpp:22-24 | the number of slots, zero without dimensions, computed with wrap-around |
| GSlice.GSlice.Turn | libraries/libc++/libcxx/src/valarray.cpp:32-49 | with at most as many slots as index vectors, one turn fills exactly the next slot with its position, reports exhaustion exactly at the last index vector, and a write outside exactly behind the last slot before that |
| GSlice.GSlice.FillSlot | libraries/libc++/libcxx/src/valarray.cpp:37-40 | a step of one digit with the digits behind it rewound changes one slot, by the difference of the positions |
| GSlice.TickSuccessor | libraries/libc++/libcxx/src/valarray.cpp:35-47 | stepping the last digit that is not at its maximum gives the next index vector in row-major order |
| GSlice.TickDot | libraries/libc++/libcxx/src/valarray.cpp:38-40 | how the stride-weighted sum changes in a step |
| GSlice.DotIsWeightedSum | libraries/libc++/libcxx/src/valarray.cpp:38-40 | the position is the sum of the strides weighted by the indices |
| GSlice.TickPosition | libraries/libc++/libcxx/src/valarray.cpp:38-40 | the incremental update of a slot is the closed formula for the next index vector, modulo the word |
| GSlice.FullIsLast | libraries/libc++/libcxx/src/valarray.cpp:45-46 | the odometer wraps only behind the last index vector |
| GSlice.CountWrapsShort | libraries/libc++/libcxx/src/valarray.cpp:22-25 | a concrete pair of sizes whose product wraps to two slots, so that the third write is outside |
| GSlice.CountWrapsToZero | libraries/libc++/libcxx/src/valarray.cpp:22-26 | a concrete pair of sizes whose product wraps to zero slots, so that nothing is written |
| MixedRadix.RankIsNumbering | libraries/libc++/libcxx/src/valarray.cpp:21-50 | row-major numbering of index vectors is invertible and stays below the product of the sizes |
| MixedRadix.UnrankIsIndex | libraries/libc++/libcxx/src/valarray.cpp:21-50 | every number below the product is the number of an index vector |
| MixedRadix.RankIsRowMajor | libraries/libc++/libcxx/src/valarray.cpp:21-50 | the numbering increases exactly in lexicographic order of the index vectors |
| MixedRadix.RankSplit | libraries/libc++/libcxx/src/valarray.cpp:35-47 | a mixed-radix number splits at any position into a weighted front and a rest |
| Converters.Utf16ToUtf8 | libraries/libc++/libcxx/src/locale.cpp:1739-1814 | result, units consumed and bytes written are those of the specification, for every input, room, largest code and header mode; bytes behind the output stay |
| Converters.Utf8ToUtf16 | libraries/libc++/libcxx/src/locale.cpp:1893-2012 | the same for the decoder to UTF-16, with its own order of checks; `UnicodeLaws.CallStops` says which inputs are refused with error and which with partial |
| Converters.Ucs4ToUtf8 | libraries/libc++/libcxx/src/locale.cpp:2236-2289 | the same for UCS-4 to UTF-8, for all 32-bit values and any largest code |
| Converters.Utf8ToUcs4 | libraries/libc++/libcxx/src/locale.cpp:2291-2403 | the same for UTF-8 to UCS-4; `UnicodeLaws.CallStops` says which inputs are refused with error and which with partial |
| Converters.Ucs4ToUtf16be | libraries/libc++/libcxx/src/locale.cpp:2699-2742 | the same for UCS-4 to big-endian UTF-16, with the borrow of the plane bits for values past the last plane |
| Converters.Utf16beToUcs4 | libraries/libc++/libcxx/src/locale.cpp:2744-2787 | the same for big-endian UTF-16 to UCS-4, with an odd last byte left partial |
| Converters.Utf8ToUtf16Length | libraries/libc++/libcxx/src/locale.cpp:2135-2234 | equals, cast to int, the number of bytes the converter consumes when given room for mx units, for every input, largest code and header mode |
| Converters.Utf8ToUcs4Length | libraries/libc++/libcxx/src/locale.cpp:2405-2501 | the same agreement with the converter to UCS-4 |
| Converters.Utf16beToUcs4Length | libraries/libc++/libcxx/src/locale.cpp:2789-2829 | the same agreement with the converter from big-endian UTF-16 |
| UnicodeLaws.Resume | libraries/libc++/libcxx/src/locale.cpp:1739-1814 | a call that saw only the front of the input, with any room, either failed where one call on everything fails or can be resumed where it stopped; for all six converters |
| UnicodeLaws.PiecesAgree | libraries/libc++/libcxx/src/locale.cpp:1893-2012 | converting in any pieces with any room and resuming each time gives the output, result and stopping place of one call |
| UnicodeLaws.Transcodes | libraries/libc++/libcxx/src/locale.cpp:1739-1814 | with a largest code the converter honours, it turns the encoding of any sequence of scalar values up to that code into the other encoding of the same sequence |
| UnicodeLaws.CallStops | libraries/libc++/libcxx/src/locale.cpp:1739-2787 | for all six converters and every input, room and largest code: a call transcodes the characters at the front and stops at the end with ok, where it needs more input or room with partial, and otherwise, where no allowed character starts, with error |
| UnicodeLaws.WholeStops | libraries/libc++/libcxx/src/locale.cpp:1739-2787 | with enough room, partial exactly before a character cut off by the end of the input, by the ranges of its units, unless the first unit is refused for its size |
| UnicodeLaws.RefusedInput | libraries/libc++/libcxx/src/locale.cpp:1739-2787 | with the default largest code, partial exactly before a cut-off character, and error exactly where none is cut off and no encoding of a scalar value starts |
| UnicodeLaws.Utf8Layout | libraries/libc++/libcxx/src/locale.cpp:1758-1810 | the UTF-8 encoding of a scalar value is the character of the grammar in RFC 3629 whose payload bits are that value |
| UnicodeLaws.Utf16Layout | libraries/libc++/libcxx/src/locale.cpp:1917-1990 | the UTF-16 encoding is the code itself or the two halves with the upper and lower ten bits above 0xFFFF, by section 2.1 of RFC 2781 |
| UnicodeLaws.LargeInUtf8Bits | libraries/libc++/libcxx/src/locale.cpp:2278-2286 | a code past the last plane keeps its low 22 bits in UTF-8, in four bytes of the usual form |
| UnicodeLaws.LargeInUtf16beBits | libraries/libc++/libcxx/src/locale.cpp:2724-2739 | in big-endian UTF-16 it keeps its low 21 bits, and makes a surrogate pair exactly if these are a code of one of the sixteen upper planes |
| UnicodeLaws.AcceptsExactly | libraries/libc++/libcxx/src/locale.cpp:2291-2403 | with the default largest code a converter returns ok exactly on encodings of sequences of scalar values |
| UnicodeLaws.AcceptsUpTo | libraries/libc++/libcxx/src/locale.cpp:1739-1814 | with any largest code the converter honours, it returns ok exactly on encodings of scalar values up to that code; all six converters |
| UnicodeLaws.HonouredExactly | libraries/libc++/libcxx/src/locale.cpp:1911-1914 | the decoder from UTF-8 to UTF-16 does so for every input exactly if the largest code is below 0x80 or at least 0xC3, because it compares the raw lead byte |
| UnicodeLaws.LeadByteRefused | libraries/libc++/libcxx/src/locale.cpp:1911-1934 | for every largest code in between, a text within the limit that this decoder refuses and the decoder to UCS-4 accepts |
| UnicodeLaws.GeneratesHeader | libraries/libc++/libcxx/src/locale.cpp:1743-1752 | an encoder that generates the header writes the encoding of the text with the byte order mark in front |
| UnicodeLaws.HeaderWithoutRoom | libraries/libc++/libcxx/src/locale.cpp:1747-1750 | without room for the header a call is partial and touches nothing |
| UnicodeLaws.ConsumesHeader | libraries/libc++/libcxx/src/locale.cpp:1899-1906 | a decoder that consumes the header drops a byte order mark in front of the text, and nothing else |
| UnicodeLaws.HeaderRoundTrip | libraries/libc++/libcxx/src/locale.cpp:1743-1906 | encoding with a generated header and decoding with the header consumed gives the text back |
| UnicodeLaws.RoundTrip | libraries/libc++/libcxx/src/locale.cpp:1893-2012 | on every well-formed sequence each converter is undone by its inverse, surrogate pairs included |
| UnicodeLaws.AcceptsGrammar | libraries/libc++/libcxx/src/locale.cpp:2291-2403 | the decoders of UTF-8 return ok exactly on the byte strings of the grammar in section 4 of RFC 3629 |
| UnicodeLaws.WellFormedUtf8 | libraries/libc++/libcxx/src/locale.cpp:1725-1737 | the encodings of scalar sequences in UTF-8 are the language of that grammar |
| UnicodeLaws.WellFormedUtf16 | libraries/libc++/libcxx/src/locale.cpp:1725-1737 | the encodings in UTF-16 are the sequences in which surrogates occur in pairs |
| UnicodeLaws.AcceptsHalvesPaired | libraries/libc++/libcxx/src/locale.cpp:1781-1803 | the converter from UTF-16 returns ok exactly when every surrogate is half of a pair |
| UnicodeLaws.WellFormedUcs4 | libraries/libc++/libcxx/src/locale.cpp:2252-2257 | the encodings in UCS-4 are the sequences of scalar values, so these are what the encoders from UCS-4 accept |
| UnicodeLaws.BigEndianText | libraries/libc++/libcxx/src/locale.cpp:2718-2739 | the big-endian encoding of a sequence is its UTF-16 encoding with the high byte of every word first |
| UnicodeLaws.DecodeEncode | libraries/libc++/libcxx/src/locale.cpp:2256-2286 | decoding the front of an encoded scalar value gives the value and its length, whatever follows, in all four encodings |
| UnicodeLaws.EncodeDecode | libraries/libc++/libcxx/src/locale.cpp:2308-2400 | what decodes is the unique encoding of a scalar value |
| UnicodeLaws.StepStable | libraries/libc++/libcxx/src/locale.cpp:1757-1812 | a loop turn that is not held up does the same when more input or more room is available |
| HashTable.NodeTable.constructor | libraries/libc++/libcxx/src/debug.cpp:135-143 | a new table is empty, with no buckets |
| HashTable.NodeTable.Find | libraries/libc++/libcxx/src/debug.cpp:590-606 | finds the node registered for a key, and nothing exactly when there is none |
| HashTable.NodeTable.Insert | libraries/libc++/libcxx/src/debug.cpp:551-586 | adds one node for a new key; the table grows exactly when it is full, to the least prime above twice its buckets, and never holds more nodes than buckets; every node stays in the bucket its hash selects |
| HashTable.NodeTable.Grow | libraries/libc++/libcxx/src/debug.cpp:553-575 | rehashes all nodes into the least prime number of buckets above twice the old number; the registered nodes stay the same |
| HashTable.MoveChain | libraries/libc++/libcxx/src/debug.cpp:560-571 | moves a chain node by node to the buckets of the new table, losing and duplicating none |
| HashTable.NodeTable.Unlink | libraries/libc++/libcxx/src/debug.cpp:255-273 | takes exactly the node of a key out of its chain and leaves all others filed |
| HashTable.MoreBuckets | libraries/libc++/libcxx/src/debug.cpp:555-555 | the new number of buckets is the least prime above twice the old number |
| DebugIndex.NodeArray.Add | libraries/libc++/libcxx/src/debug.cpp:525-545 | appends to the array and keeps its contents; a full one, and only that, is replaced by one of twice the size, or of size one |
| DebugIndex.NodeArray.Remove | libraries/libc++/libcxx/src/debug.cpp:610-616 | removes the first occurrence and keeps the order of the rest |
| DebugIndex.DisconnectAgrees | libraries/libc++/libcxx/src/debug.cpp:417-421 | removing one array entry and the matching back pointer keeps arrays and back pointers in agreement |
| DebugIndex.ClearedMeans | libraries/libc++/libcxx/src/debug.cpp:300-304 | the loop that empties an array leaves all its iterators without container and changes no other |
| DebugIndex.SwapLoops | libraries/libc++/libcxx/src/debug.cpp:506-512 | after the arrays are exchanged, the two loops point every iterator where it belongs, also for a container swapped with itself |
| DebugDb.Db.constructor | libraries/libc++/libcxx/src/debug.cpp:135-143 | a new database has no containers and no iterators, and all its objects are new |
| DebugDb.Db.InsertI | libraries/libc++/libcxx/src/debug.cpp:516-522 | the containers stay, and exactly this iterator is added, without container |
| DebugDb.Db.InsertIC | libraries/libc++/libcxx/src/debug.cpp:185-205 | the containers stay, and exactly this iterator is added, in the container; nothing happens for an unknown container |
| DebugDb.Db.InsertC | libraries/libc++/libcxx/src/debug.cpp:208-247 | exactly this container is added, and no iterator changes |
| DebugDb.Db.EraseI | libraries/libc++/libcxx/src/debug.cpp:250-280 | exactly this iterator is forgotten, in the table and in its container's array, and the containers stay |
| DebugDb.Db.EraseC | libraries/libc++/libcxx/src/debug.cpp:367-401 | exactly this container is forgotten; its iterators stay registered without container, and every other keeps its own |
| DebugDb.Db.InvalidateAll | libraries/libc++/libcxx/src/debug.cpp:283-306 | the containers and the registered iterators stay; every iterator of the container loses it, and every other keeps its own |
| DebugDb.Db.IteratorCopy | libraries/libc++/libcxx/src/debug.cpp:404-429 | if the original is registered the copy is too, in the same container; otherwise a registered copy loses its container; no other iterator changes |
| DebugDb.Db.SwapC | libraries/libc++/libcxx/src/debug.cpp:485-513 | iterators of the first container belong to the second and the other way round, every other keeps its own |
| DebugDb.Db.FindCFromI | libraries/libc++/libcxx/src/debug.cpp:174-182 | the container a registered iterator belongs to, or none |
| DebugDb.Db.LessThanComparable | libraries/libc++/libcxx/src/debug.cpp:472-482 | true exactly for two registered iterators of one container |
| DebugDb.Db.Perform | libraries/libc++/libcxx/src/debug.cpp:174-513 | one operation of any kind is the abstract step and gives the abstract answer, and objects that join the database are new |
| DebugDb.Db.Run | libraries/libc++/libcxx/src/debug.cpp:174-513 | any sequence of operations whose callers keep their guarantees answers and ends as the abstract steps do, one after the other |
| DebugDb.Db.RunFromEmpty | libraries/libc++/libcxx/src/debug.cpp:135-513 | the same from the empty database on, and at the end arrays and back pointers, buckets and counters are all consistent with the abstract state |
| DebugDb.Db.ArraysAgree | libraries/libc++/libcxx/src/debug.cpp:202-204 | in every valid state an iterator node stands in a container's array between beg_ and end_ exactly if it points at the container, and then once |
| DebugDb.Db.NodesInBuckets | libraries/libc++/libcxx/src/debug.cpp:576-585 | in every valid state every iterator node and every container node is linked in the bucket its hash selects, and in no other |
| DebugDb.Db.NodesMeanOwners | libraries/libc++/libcxx/src/debug.cpp:174-182 | in every valid state the nodes are those of the registered keys and point where the abstract state says |
| DebugDb.Db.Counters | libraries/libc++/libcxx/src/debug.cpp:208-280 | the two size counters are the numbers of registered iterators and containers, and owners are registered |
| DebugState.StepMeans | libraries/libc++/libcxx/src/debug.cpp:185-513 | the effect of every abstract operation on every container and iterator, stated without the operation, and owners stay registered |
| DebugState.RunRegistered | libraries/libc++/libcxx/src/debug.cpp:185-513 | after any legal run iterators belong to registered containers only |
| SharedMutex.NextInv | libraries/libc++/libcxx/src/shared_mutex.cpp:26-102 | every step of every thread keeps the invariant that ties the state word to what the threads hold |
| SharedMutex.Exclusion | libraries/libc++/libcxx/src/shared_mutex.cpp:26-102 | in every reachable state a writer excludes all other holders, the reader bits are the number of shared holders, and at most one thread is past gate 1 |
| SharedMutex.GrantsExclusive | libraries/libc++/libcxx/src/shared_mutex.cpp:26-47 | in every reachable state try_lock obtains the mutex exactly when no thread holds it or has claimed it; lock claims it exactly when nobody has, and holds it exactly when nobody holds it shared; else it waits, and no other thread moves |
| SharedMutex.GrantsShared | libraries/libc++/libcxx/src/shared_mutex.cpp:61-83 | lock_shared and try_lock_shared obtain the mutex exactly when nobody has claimed it and it has fewer than the largest number of shared holders; else they wait or go away, and no other thread moves |
| SharedMutex.GivesBack | libraries/libc++/libcxx/src/shared_mutex.cpp:49-102 | unlocking leaves the caller idle, gives back exactly its hold and changes no other thread's hold |
| SharedMutex.Wakes | libraries/libc++/libcxx/src/shared_mutex.cpp:49-102 | which waiters an unlock signals: all of gate 1, or one of gate 2 behind the last shared holder of a claimed mutex, or one of gate 1 at the largest number of shared holders of an unclaimed one |
| SharedMutex.NextStepExists | libraries/libc++/libcxx/src/shared_mutex.cpp:26-102 | a thread can go on from wherever it stands inside a member function |
| SharedMutex.WakeupsNeverLostIff | libraries/libc++/libcxx/src/shared_mutex.cpp:85-102 | no thread ever waits unsignalled at a gate whose condition is free, exactly when there are at most one more threads than the reader count can express |
| SharedMutex.LostWakeup | libraries/libc++/libcxx/src/shared_mutex.cpp:97-101 | with more threads a reachable state has lost a wake-up, behind the single notification at a saturated count |
| SharedMutex.NoDeadlockAmongWaitersIff | libraries/libc++/libcxx/src/shared_mutex.cpp:26-102 | whenever a thread waits some thread holds the mutex or some waiter is signalled, in every reachable state, exactly when there is at most one thread more than the reader count can express |
| SharedMutex.StuckReader | libraries/libc++/libcxx/src/shared_mutex.cpp:85-102 | with more threads a reader is left waiting after everyone else has left, with nobody to wake it |
| RecursiveTimedMutex.StepInv | libraries/libc++/libcxx/src/mutex.cpp:143-187 | every step of every thread keeps the invariant of count, owner and pending wake-ups |
| RecursiveTimedMutex.Ownership | libraries/libc++/libcxx/src/mutex.cpp:132-187 | in every reachable state the count is what the owner holds, the id is 0 exactly at count 0, no two threads own the mutex, and free waiters have a wake-up coming |
| RecursiveTimedMutex.HeldIsHistory | libraries/libc++/libcxx/src/mutex.cpp:143-187 | after any run a thread holds the mutex exactly as often as it obtained it and did not unlock it, at most one thread has a lock left to give back, and the mutex is free exactly when none has |
| RecursiveTimedMutex.Unlocking | libraries/libc++/libcxx/src/mutex.cpp:177-187 | unlock gives back exactly one level, goes on to notify exactly when it was the last, and changes no other thread |
| RecursiveTimedMutex.Locking | libraries/libc++/libcxx/src/mutex.cpp:143-175 | a lock or try_lock that obtains nothing waits, goes away or raises, exactly when, and changes no hold |
| RecursiveTimedMutex.Notifies | libraries/libc++/libcxx/src/mutex.cpp:183-186 | the notification signals one waiter when there is one |
| RecursiveTimedMutex.Granting | libraries/libc++/libcxx/src/mutex.cpp:143-175 | exactly when a lock or try_lock obtains the mutex, and what happens at the largest count |
| RecursiveTimedMutex.NoDeadlockAmongWaiters | libraries/libc++/libcxx/src/mutex.cpp:155-187 | a waiting thread has an owner to wait for, a signalled waiter or a notifier on its way, although the notification follows the inner unlock |
| CallOnce.NextInv | libraries/libc++/libcxx/src/mutex.cpp:202-257 | every step of every call keeps flags, runners, waiters and completions in agreement |
| CallOnce.ExactlyOnce | libraries/libc++/libcxx/src/mutex.cpp:224-255 | at most one call runs func for a flag, func completes at most once, the flag is done exactly then, and a normal return implies it |
| CallOnce.OutcomeIsHistory | libraries/libc++/libcxx/src/mutex.cpp:224-255 | after any run a call has thrown or will throw exactly if its own run of func threw, a call that returned did not throw and func has completed for its flag, and func completed at most once |
| CallOnce.Entering | libraries/libc++/libcxx/src/mutex.cpp:224-230 | a call returns at once exactly when func has completed for its flag, runs func exactly when it has not and nobody runs it, and otherwise waits |
| CallOnce.Finishing | libraries/libc++/libcxx/src/mutex.cpp:236-251 | only a normal return counts as completed, and after a throw func is left to other calls |
| CallOnce.Ending | libraries/libc++/libcxx/src/mutex.cpp:240-252 | the broadcast ends its call, by throwing exactly if func threw, and signals every waiting call |
| CallOnce.DoneIsFinal | libraries/libc++/libcxx/src/mutex.cpp:228-254 | after completion the flag stays done and func never runs again |
| CallOnce.WaitersJustified | libraries/libc++/libcxx/src/mutex.cpp:226-250 | an unsignalled waiter has a running call or a pending broadcast to wait for |
| SharedCount.NextInv | libraries/libc++/libcxx/src/memory.cpp:45-124 | every atomic step keeps the stored counts and the pending destructions in agreement with the handles |
| SharedCount.CountsAreHandles | libraries/libc++/libcxx/src/memory.cpp:45-124 | the stored counts are the owners minus one, the strong handles counting together as one weak owner |
| SharedCount.DestroyedOnceInOrder | libraries/libc++/libcxx/src/memory.cpp:45-110 | the object is destroyed at most once and never while a strong handle lives, and the control block at most once, only after it and with no operation left |
| SharedCount.NothingLeaks | libraries/libc++/libcxx/src/memory.cpp:45-110 | once all handles are gone and no operation is left, the object and the control block have both been destroyed |
| SharedCount.NoUseAfterFree | libraries/libc++/libcxx/src/memory.cpp:77-124 | no step touches a destroyed control block, even behind the load-equals-zero shortcut |
| SharedCount.LockNeverRevives | libraries/libc++/libcxx/src/memory.cpp:112-124 | lock() hands out a handle only while the object lives |
| SharedCount.LockGivesUpOnlyWhenDead | libraries/libc++/libcxx/src/memory.cpp:112-124 | a round of lock() ends empty-handed only when no strong handle is left, and otherwise succeeds or goes on with the count it has seen |
| SharedCount.LockUndisturbed | libraries/libc++/libcxx/src/memory.cpp:112-124 | on a live object a lock() that no other step disturbs hands out a strong handle |
| SharedCount.HandlesKept | libraries/libc++/libcxx/src/memory.cpp:45-110 | copying adds exactly the new handle and releasing takes exactly that one away |
| CaseFold.Emitter.DumpBlock | tools/llvm/utils/unicode-case-fold.py:60-93 | appends the code of one block and fails exactly on an empty block |
| CaseFold.Emitter.Generate | tools/llvm/utils/unicode-case-fold.py:29-117 | fails exactly on unsorted input or without mappings, and otherwise emits code that maps every listed code point to its value and every other one to itself |
| CaseFold.BlockCovers | tools/llvm/utils/unicode-case-fold.py:63-93 | the code of one block, with its three special cases, maps the members and no other code point in its range |
| CaseFold.CoversConcat | tools/llvm/utils/unicode-case-fold.py:95-117 | code for a list followed by code for a later list is code for both |
| CaseFold.CoveredMeaning | tools/llvm/utils/unicode-case-fold.py:58-93 | code that covers a list computes the list's function |
| CaseFold.MemberPassesModulo | tools/llvm/utils/unicode-case-fold.py:72-81 | every member passes the modulo test |
| CaseFold.ModuloFindsMember | tools/llvm/utils/unicode-case-fold.py:72-81 | within the bounds only members pass the modulo test |
| Varint.UintRoundTrip | libraries/ftllib/include/ftllib/varint.hpp:205-237 | reading back an encoded number gives the number and stops behind its last byte |
| Varint.UintByte | libraries/ftllib/include/ftllib/varint.hpp:205-215 | byte i holds the i-th seven bits of the number, with a mark except in the last byte |
| Varint.UintLength | libraries/ftllib/include/ftllib/varint.hpp:205-215 | the encoding is as short as the groups allow |
| Varint.DecodeUintExactly | libraries/ftllib/include/ftllib/varint.hpp:225-237 | reading succeeds exactly on at most five bytes of which only the last is unmarked, and gives the sum of the groups at their places, modulo the word |
| Varint.ZigZag | libraries/ftllib/include/ftllib/varint.hpp:440-472 | the zig-zag of signed_int is undone for all 32-bit values |
| Varint.ZigMeans | libraries/ftllib/include/ftllib/varint.hpp:440-455 | the zig-zag of n is 2n, and of a negative n it is -2n - 1 |
| DataStream.RoundTrip | libraries/ftllib/include/ftllib/datastream.hpp:343-881 | for every value of the universe of types, C arrays with their count included, decoding what was encoded gives the value back and consumes exactly its bytes, whatever follows |
| DataStream.EncodeInjective | libraries/ftllib/include/ftllib/datastream.hpp:343-881 | different values of a type have different encodings |
| DataStream.EmplaceSorted | libraries/ftllib/include/ftllib/datastream.hpp:788-852 | rebuilding a set or map by emplacing its elements in order gives the same set or map |
| DataStream.PrimRoundTrip | libraries/ftllib/include/ftllib/datastream.hpp:894-946 | the object representation of an arithmetic value, two's complement when negative, is read back |
| DataStream.PrimByte | libraries/ftllib/include/ftllib/datastream.hpp:929-933 | byte i of an arithmetic value n is n / 256^i modulo 256: two's complement, least byte first |
| DataStream.PrimRepresented | libraries/ftllib/include/ftllib/datastream.hpp:943-946 | what is read is the sum of the bytes at their places, less 256^size for a negative one |
| DataStream.ElementsInOrder | libraries/ftllib/include/ftllib/datastream.hpp:276-946 | the elements of a container stand behind each other in their order |
| DataStream.FieldsInOrder | libraries/ftllib/include/ftllib/datastream.hpp:276-946 | the fields of a class, pair or tuple stand behind each other in their order |
| DataStream.Fronts | libraries/ftllib/include/ftllib/datastream.hpp:276-946 | what stands in front: the count before elements, the length before characters, the index before an alternative, one byte before an optional value |
| DataStream.EmplaceMeans | libraries/ftllib/include/ftllib/datastream.hpp:788-852 | emplacing any elements, in any order and more than once, gives them in order and of equivalent ones the first |
| WireFormat.DecodeExactly | libraries/ftllib/include/ftllib/datastream.hpp:276-946 | on every byte string decoding reads a value exactly if a form of it stands in front, and fails exactly if no form of any value does |
| WireFormat.WireDecodes | libraries/ftllib/include/ftllib/datastream.hpp:276-946 | every form of a value is read as the value, superfluous groups and any nonzero byte for true included |
| WireFormat.DecodedIsWire | libraries/ftllib/include/ftllib/datastream.hpp:276-946 | what is read stands there in one of its forms |
| WireFormat.EncodingIsWire | libraries/ftllib/include/ftllib/datastream.hpp:276-946 | an encoding is a form of its value |
| Streams.OutStream.Write | libraries/ftllib/include/ftllib/datastream.hpp:78-83 | a write appends exactly its bytes when the signed check passes and they fit, aborts exactly when the check fails, and leaves the buffer exactly when the check passes and they do not fit; the counting stream always succeeds |
| Streams.CheckMeansRoom | libraries/ftllib/include/ftllib/datastream.hpp:79-79 | the signed check says whether the bytes fit exactly if the room and the length are both below 2^31 or neither is |
| Streams.CheckFails | libraries/ftllib/include/ftllib/datastream.hpp:79-79 | 2^31 bytes pass the check with five bytes of room, and one byte does not pass with 2^31 bytes of room |
| Streams.OutStream.PutUint | libraries/ftllib/include/ftllib/varint.hpp:205-215 | the loop of the stream operator writes the encoding, exactly if it fits |
| Streams.OutStream.Put | libraries/ftllib/include/ftllib/datastream.hpp:276-946 | writing any value appends its encoding exactly if it fits: into a counting stream always, into a buffer if the encoding is empty or has room and less than 2^31 bytes of room are left |
| Streams.PackSize | libraries/ftllib/include/ftllib/datastream.hpp:993-998 | the counting pass gives the number of bytes of the encoding, modulo the word |
| Streams.Pack | libraries/ftllib/include/ftllib/datastream.hpp:1009-1016 | packing succeeds exactly for encodings of less than 2^31 bytes, and then the packed bytes are the encoding, filling the buffer exactly |
| Streams.InStream.Read | libraries/ftllib/include/ftllib/datastream.hpp:64-69 | a read takes exactly the next bytes, or fails exactly when there are too few |
| Streams.InStream.GetUint | libraries/ftllib/include/ftllib/varint.hpp:225-237 | the loop of the stream operator reads what the format prescribes |
| Streams.InStream.Get | libraries/ftllib/include/ftllib/datastream.hpp:276-946 | reading any type yields what the format prescribes and stops behind it, or fails where a check fails, the count of a C array included |
| Streams.Unpack | libraries/ftllib/include/ftllib/datastream.hpp:961-981 | unpacking is decoding from the front |
| Streams.PackUnpack | libraries/ftllib/include/ftllib/datastream.hpp:961-1016 | what packs, exactly the encodings of less than 2^31 bytes, is unpacked again, with any bytes behind it |
| Names.FromString | libraries/ftllib/include/ftllib/name.hpp:63-85 | accepts exactly the strings of at most thirteen allowed characters with a small thirteenth one, and packs them |
| Names.WriteAsString | libraries/ftllib/include/ftllib/name.hpp:185-201 | writes the text of the name and nothing else, or nothing without room for thirteen characters |
| Names.Length | libraries/ftllib/include/ftllib/name.hpp:109-124 | is the length of the text |
| Names.Suffix | libraries/ftllib/include/ftllib/name.hpp:129-159 | is the name of the text behind the last dot, or of the whole text, the four-bit character included |
| Names.EncodeText | libraries/ftllib/include/ftllib/name.hpp:63-85 | constructing a name from its own text gives the name back, for all 64-bit values |
| Names.Alphabet | libraries/ftllib/include/ftllib/name.hpp:186-196 | the alphabet is charmap, and the value of a character is its place there |
| Names.TextEncode | libraries/ftllib/include/ftllib/name.hpp:185-212 | the text of a constructed name is the string without its trailing dots |
| Names.OrderAgrees | libraries/ftllib/include/ftllib/name.hpp:248-250 | names compare as their texts do, character by character in ASCII |
| Names.SuffixValue | libraries/ftllib/include/ftllib/name.hpp:154-158 | masking and shifting moves the characters behind the dot to the front, the thirteenth one bit short |
| Table.MapKey | libraries/ftllib/include/ftllib/map.hpp:36-45 | the key bytes are the packed key, and keys longer than 32 bytes abort |
| Table.Table.constructor | libraries/ftllib/include/ftllib/map.hpp:82-97 | a table is a handle without state over whatever map the store holds under its name, empty or not |
| Table.Reopened | libraries/ftllib/include/ftllib/map.hpp:82-97 | a store with nothing but packed entries under a name holds the entries of some map there, so a table can be opened over it |
| Table.StoredPut | libraries/ftllib/include/ftllib/map.hpp:99-113 | storing an entry under its packed key replaces the entry of this key and no other |
| Table.Table.Lookup | libraries/ftllib/include/ftllib/map.hpp:99-141 | the store has an entry under a key's bytes exactly if the map has the key, because different keys never share bytes |
| Table.Table.Put | libraries/ftllib/include/ftllib/map.hpp:99-113 | updates the map at the key and leaves other tables alone; aborts exactly when the key is too long or the value cannot be packed |
| Table.Table.Get | libraries/ftllib/include/ftllib/map.hpp:115-133 | returns the map's value, and aborts exactly when there is none or the key is too long |
| Table.Table.HasKey | libraries/ftllib/include/ftllib/map.hpp:135-137 | tells whether the map has the key |
| Table.Table.Erase | libraries/ftllib/include/ftllib/map.hpp:139-141 | removes the key from the map and leaves other tables alone |
| Table.Table.Run | libraries/ftllib/include/ftllib/map.hpp:99-141 | on a new or reopened table, any sequence of operations answers what the same sequence answers on a map, up to the first abort |
| FlatMemory.Heap.constructor | libraries/ftllib/src/malloc.cpp:22-28 | the allocator starts behind the aligned heap base, with the real page count |
| FlatMemory.Heap.Alloc | libraries/ftllib/src/malloc.cpp:30-45 | blocks are 8-aligned, pairwise disjoint and below the end of memory, the page counter is the real page count, growth is exact, and the exact cases of failure |
| FlatMemory.PagesForIsLeast | libraries/ftllib/src/malloc.cpp:36-43 | the memory grows by the whole pages asked for, and by one more exactly when the padded block would not fit |
| FlatMemory.Heap.MemCpy | libraries/ftllib/src/memory.cpp:10-16 | copies byte by byte in increasing order |
| FlatMemory.Heap.MemMove | libraries/ftllib/src/memory.cpp:17-25 | moves also overlapping ranges correctly and changes nothing else in the memory in use |
| FlatMemory.CopyForwardMoves | libraries/ftllib/src/memory.cpp:13-14 | the byte loop moves the range when the destination does not start inside the source |
| FlatMemory.CopyForwardRepeats | libraries/ftllib/src/memory.cpp:13-14 | when it does, the loop repeats the leading bytes, which is why memmove needs its buffer |
| FlatMemory.MoveThrough | libraries/ftllib/src/memory.cpp:20-22 | moving through a buffer behind the memory in use is moving |

## Left out

- Host imports, the action and dispatcher macros, logging and sample contracts: foreign calls and plumbing. The host store is a map.
- The `codecvt` member wrappers, the `uint32_t` overloads, the little-endian and UCS-2 variants of the converters: they repeat the same argument.
- Converters: bit-level OR and AND are not modelled as such; fields are split and joined by division, remainder and addition.
- Facets, ctype tables, formats and the other parts of `locale.cpp`: they depend on libc and finite tables.
- NextPrime.NextPrime: `size_t` is unbounded and the overflow check is absent, as it is when compiled without exceptions; the 48 unrolled tests are one loop over the table of increments.
- GSlice.GSlice.Init: allocation of the slots always succeeds, and the loop ends where it would write outside.
- HashTable.NodeTable.Insert: the source writes the table twice, for iterator and container nodes; here it is one generic class. Failing allocations and the freeing of nodes are not modelled.
- DebugDb.Db.SwapC: both containers are registered, as the callers guarantee; an unregistered one fails an assertion in the source.
- DebugDb.Db.InsertI: an iterator, and a container, is registered once, as the callers guarantee.
- DebugDb.Db.FindCFromI: an unregistered iterator fails an assertion in the source. The index keeps the array in an object of its own instead of three pointers inside the node, and the internal mutex is left out: every operation is one step.
- `__find_c`, `__find_c_and_lock` and the `__dereferenceable` family: the same search, and questions passed on to the container.
- Timed waits of the mutexes, spurious failures beyond the modelled ones, memory ordering and real clocks.
- SharedCount.CountsAreHandles: the counts are unbounded integers.
- CaseFold.Emitter.Generate: the emitted text is kept as syntax, comments are dropped, and the parsing of the Unicode database into mappings is left out.
- Varint.UintRoundTrip: encodings of more than five bytes are a failed read, because the code shifts by more than the word and gives them no meaning.
- Streams.OutStream.Put: a C array of arithmetic type is written element by element, where the source writes all its bytes at once; the bytes are the same and they are written in the same cases. Its elements are read as single values are, which differs for `bool` bytes above 1.
- Streams.Unpack: the destination is a fresh value; an `optional` that is read into keeps an older value in the source only when the caller passes one.
- Table.Table.Get: the stack buffer and the heap buffer for large values are the same.
- FlatMemory.Heap.Alloc: `realloc`, `calloc`, `memset` and `memcmp` are simple loops or reuse it.
- Boost and C headers, benchmarks, build and update scripts, the demangler heuristic and the other libc++ sources: wrappers, text formatting, or no property of this kind.
