# ClassyC runtime and object emitter: a verified model

ClassyC compiles a C dialect with classes, generics, fibers, exceptions and a garbage-free String type. This
project models the algorithms of its runtime headers and of its object emitter in Dafny and proves what they
are relied on for. Code that updates state in place is modelled by classes and methods over arrays, each proved
against a pure specification; the properties that span operations, runs or interleavings are lemmas about
those specifications. `dafny verify dfyconfig.toml` checks all of it.

| area | files | main results |
|---|---|---|
| `Map<K, V>` | ProbeSequence, OpenTable, FiniteMap, HashMap, Modular, Occupancy | triangular probing visits every slot; every run of operations agrees with a mathematical map |
| JSON | Ascii, Numerals, CodePoints, Placement, Json, JsonScalars, JsonTree, JsonRoundTrip, JsonGrammar, JsonAccepted, JsonLayout, JsonPrinter, JsonParser, DictObject | parse inverts print, compact and pretty; the parser accepts exactly the texts of a grammar, with their meaning; bounded printing; the doubling driver |
| fibers | FiberTable, WorkerPool, FiberLives, Fairness, Channel | safety of the worker pool and of the rendezvous channel over all interleavings; what every look at the channel brings about; bounded waiting of suspended fibers |
| arenas and exceptions | Arenas, Registries, Unwinding, ExceptionState, ObjectGuard, GuardRuns, Quarantine | conservation and no double free; exactly what every exit frees; unwinding restores try entry; when the guard table reports nothing false |
| strings | CStrings, SplitJoin, Utf8, Utf8Text, StringMethods | the algebra of split, join and replace_all; code points over arbitrary bytes, and what it comes to for encoded text; find |
| object emitter | SymbolIndex, SymbolPartition, Leb128, LineProgram | hashed lookup = linear scan; stable partition; line program = line map, down to the bytes |
| framing | Socket, ChunkedBody, RequestReader | results that do not depend on how the network splits the stream |
| sorting | ShellSort | a sorted permutation |

Modelling conventions. Sizes and counters are mathematical integers; `& (cap - 1)` on a power-of-two capacity is
remainder. Allocation succeeds. Pointers are numbers, 0 being NULL. Hash functions, comparison functions,
the C library's reading and printing of numbers, and the splitting of network data are arbitrary: parameters or
nondeterministic choices constrained only by what the code relies on. An atomic step of a concurrent model is a
section of the source under one lock, a coroutine switch, or one unlocked load or store. Where the code and its
comments disagree, the model follows the code: the children of a container in pretty JSON are indented like the container itself (include/dict.h:448-456);
a send that reports a closed channel may still be received (include/cyfiber.h:504-510).

Properties that turn out to need a condition have it proved exactly or are shown to fail without it: splitting
undoes joining if and only if no delimiter is visible early (SplitJoin); find is right for a needle in every text if
and only if neither end of the needle can join with bytes around it (Utf8); a fiber is abandoned if and only if some
spawn comes at the turn of a worker that has left, which an outside spawn between the load of outstanding and the
store of the stop flag can bring about (WorkerPool); a dispatch restores a registry if and only if the body handed out
nothing of it, for bodies that register nothing of it again (Unwinding); a line program shows the files of its map if
and only if the file register keeps the file of every entry that counts, which a repeated entry can prevent, and
likewise its columns (LineProgram); a cleanup dropped by a full stack lets a normal exit discard another one, which an exception then loses
(Unwinding); the object guard can come to report a live object if and only if an eviction clears its entry in front of a
stale dead one, which needs a wrong delete that goes unreported (GuardRuns).

## Model

| member | source | states |
|---|---|---|
| ProbeSequence.ProbeStep | include/map.h:169-187 | advancing by the next step, modulo the capacity, moves the triangular probe sequence from its k-th to its next position |
| ProbeSequence.ProbesDistinct | include/map.h:169-187 | any two of the first 2^m positions of the triangular probe sequence are different |
| ProbeSequence.ProbeVisitsEverySlot | include/map.h:169-187 | for every power-of-two capacity and every hash, each slot is visited within the first `cap` probes, which is why the unbounded probe loops stop |
| OpenTable.LocatedIsUnique | include/map.h:161-166 | the slot that find_slot promises (the entry of the key, else the first tombstone or empty slot of its path) is unique |
| OpenTable.AbsentAtEmpty | include/map.h:176-178 | an empty slot on the path of a key, with no match before it, means that the key is absent |
| OpenTable.HasRoom | include/map.h:216-221 | below the 0.7 load factor at least one slot is empty |
| OpenTable.LocatedMeans | include/map.h:161-166 | the located slot holds an entry exactly when the key is stored, and then the entry of that key |
| OpenTable.IndexedInsert | include/map.h:398-430 | entering an absent key at its located slot keeps the index: live entries a bijection onto the dense positions, keys distinct, every key reachable from its home slot with no empty slot before it, `used` the number of slots that are not empty, load below 0.7 |
| OpenTable.IndexedRemove | include/map.h:467-500 | repointing the entry of the moved key and leaving a tombstone keeps that index, over the dense keys after the swap |
| OpenTable.RehashMove | include/map.h:204-214 | one step of a rehash keeps the entered part of the index sound and complete, while the rest is still in the old table |
| OpenTable.RehashEnd | include/map.h:204-214 | a finished rehash is a complete index again, with no more slots used than before |
| FiniteMap.AssocSwapRemove | include/map.h:475-496 | taking a dense position out by moving the last one into it removes exactly that key from the map the dense arrays stand for |
| HashMap.Map.constructor | include/map.h:226-251 | an empty map, whatever the requested capacity |
| HashMap.Map.FindSlot | include/map.h:169-187 | the located slot of the key, within `table_cap` probes, also in the middle of a rehash |
| HashMap.Map.FindIndex | include/map.h:190-194 | a non-negative answer exactly for stored keys, and then the dense index of the key |
| HashMap.Map.GrowTable | include/map.h:196-215 | the table doubled, tombstones gone, the stored map and its order unchanged, room for one more slot |
| HashMap.Map.EnsureTable | include/map.h:218-221 | one more slot can be claimed below the load factor, nothing stored changes |
| HashMap.Map.InsertNewAt | include/map.h:398-430 | the key appended to the dense order and the map extended by it, from a slot that find_slot located |
| HashMap.Map.Set | include/map.h:434-445 | the mathematical map updated at the key; the answer says whether the key was new; an overwrite keeps the order |
| HashMap.Map.TryAdd | include/map.h:450-456 | the map extended only when the key is absent, and untouched otherwise |
| HashMap.Map.LocateOrInsert | include/map.h:516-523 | the dense index of a key, which is inserted with the fallback when absent, with a single probe |
| HashMap.Map.GetOrAdd | include/map.h:516-523 | the stored value, after inserting the fallback exactly when the key was absent |
| HashMap.Map.Get | include/map.h:313-320 | the stored value, or None where the source throws KeyException |
| HashMap.Map.GetOr | include/map.h:323-327 | the stored value or the fallback |
| HashMap.Map.Contains | include/map.h:305-308 | membership in the mathematical map |
| HashMap.Map.FindEntry | include/map.h:480-491 | the search for the moved entry by its dense index ends within `table_cap` probes at that entry |
| HashMap.Map.Remove | include/map.h:460-500 | the key removed from the mathematical map and nothing else; the dense order changes by one swap-remove |
| HashMap.Map.Clear | include/map.h:503-511 | the empty map and an empty order |
| HashMap.Map.Perform | include/map.h:313-523 | one client operation answers and changes the map as the mathematical map does |
| HashMap.Replay | include/map.h:226-523 | every sequence of operations on a constructed map gets the answers of a mathematical map and ends in its state |
| HashMap.GroupBy | include/map.h:731-750 | every key of the result has the items with that key, in list order, and there is no other key |
| ShellSort.Sort | include/list.h:438-452 | under any comparison function the list becomes a permutation of itself and what lies beyond its length is untouched; under any total preorder it becomes sorted |
| ShellSort.Pass | include/list.h:441-449 | one pass keeps the elements and, under a total preorder, leaves the array sorted at distance `gap` |
| ShellSort.Insert | include/list.h:442-449 | inserting element i keeps the elements and, under a total preorder, keeps the part below it sorted at distance `gap`, now with it |
| ShellSort.GapOneIsSorted | include/list.h:441-450 | sorted at distance 1 is sorted |
| JsonScalars.EscapeBack | include/dict.h:414-441 | reading an escaped string back gives the string, for all bytes but zero, at any position of a text |
| JsonScalars.ScalarBack | include/dict.h:457-474 | the printed text of a string, integer, boolean or null is read back as that value, unless a number runs on after it |
| JsonScalars.KeyBack | include/dict.h:494-503 | a printed key is read back as that key |
| JsonScalars.DecimalLength | include/dict.h:909-916 | the decimal text of an integer up to 2^53 fits the parser's 128-byte number buffer |
| JsonScalars.DecimalSpells | include/dict.h:462-470 | a printed integer is a minus sign if negative and its decimal digits, most significant first, with no zero in front |
| Numerals.DigitsSpell | include/dict.h:462-470 | the digits of a number spell it in base 10, most significant first: the digits are given by their characters, apart from any reader or writer |
| JsonRoundTrip.JsonInverts | include/dict.h:414-503 | what the reader does with keys and values without parts inverts what the writer prints |
| JsonRoundTrip.ItemsBack | include/dict.h:966-1038 | the printed items of an array are read back in order, compact or pretty |
| JsonRoundTrip.PairsBack | include/dict.h:1040-1103 | the printed pairs of an object with distinct keys are read back in order, compact or pretty |
| JsonRoundTrip.ValueBack | include/dict.h:443-520 | a well-formed value printed anywhere in a text, at any indentation, is parsed back and the parser stops right after it |
| JsonRoundTrip.RoundTrip | include/dict.h:1108-1135 | deserializing the serialized text of a well-formed value gives the value back, compact or pretty, at any nesting |
| JsonGrammar.Tokens | include/dict.h:932-958 | the brackets, quotes, separators and words of the printer and of the parser are the characters of RFC 8259 |
| JsonGrammar.FourDigits | include/dict.h:833-844 | any four hex digits that spell a code point, in either case and most significant first, are read as it |
| JsonGrammar.CharsRead | include/dict.h:798-890 | a string written with any mixture of plain bytes, two-character escapes and unicode escapes is read as what its parts mean; a unicode escape means the UTF-8 encoding of its code point, by the table of RFC 3629 |
| JsonGrammar.StringWritten | include/dict.h:414-441 | the printer writes every string as such a mixture that means it, with no control character left as it is |
| JsonGrammar.ValueRead | include/dict.h:929-1103 | a text of the grammar of RFC 8259 with white space anywhere between its tokens, numbers being what the C library reads, is read as what it means, wherever it stands |
| JsonGrammar.TextRead | include/dict.h:1110-1135 | such a text with white space around it is deserialized to its meaning, and an empty text to an empty object |
| JsonGrammar.TrailingTextRefused | include/dict.h:1114-1133 | followed by anything else it is refused |
| JsonAccepted.CharsShown | include/dict.h:798-890 | whatever string the parser reads, the text there is such a mixture, up to a closing quote, and the string its meaning |
| JsonAccepted.ValueShown | include/dict.h:929-1103 | whatever value the parser reads, there stands a text of the grammar, after white space, that means it |
| JsonAccepted.DeserializeExactly | include/dict.h:1110-1135 | a text is deserialized to a value if and only if it is a text of the grammar with white space around it that means the value, or is empty and the value the empty object |
| JsonAccepted.LastWins | include/dict.h:330-359 | when a key is repeated in an object the last value wins, and the keys of the result are distinct |
| JsonAccepted.KeptAsTheyAre | include/dict.h:330-359 | pairs with distinct keys stay as they are written, in their order |
| JsonLayout.PrintIsLayout | include/dict.h:443-520 | the printed text is the tokens of the value one after another, or, when pretty, with a line break and two spaces for every open bracket but the innermost after an opening bracket or comma and before a closing bracket, and a space after a colon |
| JsonPrinter.Printer.AppendChar | include/dict.h:406-412 | the character is appended, or the buffer is full |
| JsonPrinter.Printer.AppendText | include/dict.h:398-404 | the text is appended, or it does not fit with a byte to spare; nothing is written past the buffer |
| JsonPrinter.Printer.AppendEscaped | include/dict.h:414-441 | the quoted and escaped string is appended, or it does not fit with a byte to spare |
| JsonPrinter.Printer.PrintValue | include/dict.h:443-520 | exactly the printed text is appended, or that text does not fit with a byte to spare, for any buffer size and what was already written |
| JsonPrinter.Printer.PrintArray | include/dict.h:475-493 | the same for an array, comma, line and item by turns |
| JsonPrinter.Printer.PrintObject | include/dict.h:494-515 | the same for an object |
| JsonPrinter.SerializeInto | include/dict.h:522-540 | for any capacity: success exactly when the printed text is shorter than the buffer, and then that text and a terminator; otherwise the buffer is emptied |
| JsonPrinter.SerializeHeap | include/dict.h:552-571 | the printed text if it is shorter than 2^30 bytes and NULL otherwise, in a buffer at most twice as large as needed |
| JsonParser.Parser.Skip | include/dict.h:779-788 | the position moves over all white space and no further |
| JsonParser.Parser.JsonString | include/dict.h:798-890 | the string that the grammar finds at the position, decoded, or failure exactly when it finds none |
| JsonParser.Parser.UnicodeEscape | include/dict.h:833-844 | four hex digits read as a number, or failure when one is missing or no hex digit |
| JsonParser.Parser.NumberValue | include/dict.h:892-921 | the value of the longest run of number characters, or failure when it is too long or no number |
| JsonParser.Parser.ParseValue | include/dict.h:929-961 | what the grammar finds at the position, and the position after it |
| JsonParser.Parser.ParseArray | include/dict.h:966-1038 | the items the grammar finds, in order |
| JsonParser.Parser.ParseObject | include/dict.h:1040-1103 | the pairs the grammar finds, a repeated key keeping its place and getting the later value |
| JsonParser.DeserializeJson | include/dict.h:1108-1135 | the value of the whole text; an empty text is an empty object and trailing text is an error |
| DictObject.SetLookup | include/dict.h:330-359 | setting a key changes the value of that key and of no other, and keeps the keys distinct |
| DictObject.RemoveLookup | include/dict.h:371-384 | removing a key removes that key and no other |
| DictObject.RemoveIsOthers | include/dict.h:371-384 | what is left after a removal are the pairs with other keys, in their order |
| DictObject.ObjectNode.Set | include/dict.h:330-359 | refused exactly for empty and over-long keys; otherwise the pairs with the value replaced in place or the pair appended |
| DictObject.ObjectNode.Get | include/dict.h:362-368 | the value of the first pair with the key |
| DictObject.ObjectNode.Remove | include/dict.h:371-384 | the pairs without the key, in order, and whether it was there |
| FiberTable.PickMeans | include/cyfiber.h:183-195 | the round-robin scan finds the first suspended fiber of the worker from its cursor on, and finds none only when there is none |
| FiberTable.ReapSplits | include/cyfiber.h:196-202 | a sweep takes out exactly the dead fibers pinned to the worker and keeps the others |
| Fairness.PickedInTime | include/cyfiber.h:182-203 | while no fiber is spawned, a suspended fiber in a table of n is picked before its worker has swept n(n+1)/2 times, whatever the other workers do, although reaping moves the last entry below the cursor |
| FiberTable.Scheduler.ReapAt | include/cyfiber.h:161-167 | one entry leaves by swap-remove, its coroutine is destroyed, outstanding goes down by one |
| FiberTable.Scheduler.HasFibers | include/cyfiber.h:169-174 | whether the worker owns any fiber |
| FiberTable.Scheduler.PickNext | include/cyfiber.h:183-195 | the same choice and cursor as the scan on the table |
| FiberTable.Scheduler.ReapMine | include/cyfiber.h:196-202 | the table, the coroutine states and the counter after all of the worker's dead fibers are reaped |
| FiberTable.Scheduler.Sweep | include/cyfiber.h:182-206 | the whole locked section of the worker loop: pick, reap, decide to exit |
| WorkerPool.RunKeepsInv | include/cyfiber.h:161-365 | over all interleavings of workers, spawns, outside threads and the main thread in cy_sched_run or cy_sched_shutdown, where the load of outstanding and the store of the stop flag are separate steps: outstanding is the table size, pins are valid, picked fibers are suspended and at home, and a join is skipped only when every worker has left |
| WorkerPool.ResumedAtHomeAndAlive | include/cyfiber.h:181-214 | a coroutine is resumed only by its pinned worker and only while suspended: never destroyed or run elsewhere since it was picked |
| WorkerPool.ReapedExactlyOnce | include/cyfiber.h:161-167 | every fiber ever spawned is in the table or was destroyed, once, by a sweep or by the shutdown; outstanding is the table size at every unlock |
| WorkerPool.DrainedForGood | include/cyfiber.h:278-290 | with no spawns from outside, outstanding == 0 means no fiber exists or ever will |
| WorkerPool.SpawnAbandons | include/cyfiber.h:344-363 | a spawn leaves its fiber with a worker that has left its loop if and only if the worker whose turn it is has left |
| WorkerPool.AbandonedExactly | include/cyfiber.h:181-214 | until the pool is shut down, some fiber belongs to a worker that has left if and only if some spawn of the run came at the turn of a worker that had left |
| WorkerPool.AbandonedNeverRuns | include/cyfiber.h:175-215 | a fiber of a worker that has left is never resumed again, whatever happens later |
| WorkerPool.ShutdownDestroysOnlyAbandoned | include/cyfiber.h:292-315 | the locked section of cy_sched_shutdown runs only when every worker has left, also when it joins none; what it destroys is not running and belongs to workers that left |
| WorkerPool.NothingAbandoned | include/cyfiber.h:278-296 | with no outside spawn from the load of outstanding that reads 0 on, and no shutdown while fibers are left, no fiber is left when the flag is set and no worker that has left its loop ever owns one |
| WorkerPool.SpawnBetweenLoadAndStore | include/cyfiber.h:285-287 | an outside spawn between that load and the store of the flag is enough to abandon a fiber, even with none after the store: a concrete run |
| WorkerPool.LateOutsideSpawnIsAbandoned | include/cyfiber.h:326-365 | an outside spawn after the stop flag can pin a fiber to a worker that has left: a concrete run |
| FiberLives.PinsAreRoundRobin | include/cyfiber.h:269-270 | over all interleavings: of the fibers spawned before the workers start, the k-th belongs to worker k mod n, and so does, counted anew, the k-th spawned after |
| FiberLives.EndedMeansReturned | include/cyfiber.h:161-214 | until the pool is shut down, a fiber is dead or destroyed if and only if its entry function returned at some step of the run |
| FiberLives.SwitchOutcome | include/cyfiber.h:205-213 | after any run, the fiber that a worker picked runs, and when it yields or returns it is suspended or dead and its worker is back in its loop with its cursor; nothing else changes |
| FiberLives.MainOutcome | include/cyfiber.h:278-315 | after any run: cy_sched_run goes on when no fiber is outstanding, sets the flag and returns once every worker has left; cy_sched_shutdown sets the flag, waits for the workers only if it was not set, and destroys what is left |
| FiberLives.SpawnOutcome | include/cyfiber.h:326-365 | after any run, a spawn adds one suspended fiber with a new name at the end of the table |
| FiberLives.SweepDecides | include/cyfiber.h:182-214 | a sweep takes out exactly the dead fibers of its worker, goes on to resume one exactly if a suspended one is there, and leaves exactly if the stop flag is set and all fibers of the worker were dead |
| Channel.Mailbox.TrySend | include/cyfiber.h:480-499 | the locked section of a send: the slot and the return code as functions of the old slot |
| Channel.Mailbox.PollPickup | include/cyfiber.h:504-510 | one look of the locked wait for the pickup: taken, closed with the value still there, or still full; an empty slot is looked for first |
| Channel.Mailbox.TryRecv | include/cyfiber.h:501-543 | the locked section of a receive: the message and the emptied slot, or empty, or closed and drained; a posted value is taken even after close |
| Channel.Mailbox.Close | include/cyfiber.h:601-610 | 1 exactly when the channel was open |
| Channel.RunKeepsInv | include/cyfiber.h:480-543 | over all interleavings of parked and trying senders and receivers and closers: the slot, the history of messages and every report agree |
| Channel.ReceivedIsPrefixOfPosted | include/cyfiber.h:480-543 | received messages are a prefix of posted ones, in post order and each delivered once, with |posted| - |received| = state in {0, 1} |
| Channel.SentMeansReceived | include/cyfiber.h:480-499 | a send_park that returned 1 had its message received |
| Channel.DrainedIsFinal | include/cyfiber.h:501-516 | after a receive returned 0 every posted message has been received and none will ever be posted or received again |
| Channel.ClosedOnce | include/cyfiber.h:601-610 | of all close calls exactly one returns 1, once the channel is closed |
| Channel.ParkOutcome | include/cyfiber.h:545-563 | a parking call of an idle thread leads to its loop, with its message |
| Channel.ReceiveOutcome | include/cyfiber.h:501-543 | after any run, a receiver that looks gets the oldest message not received yet, closed or not; if there is none it reports the close with everything received, or changes nothing |
| Channel.SendOutcome | include/cyfiber.h:480-530 | after any run, a sender that looks is refused by a closed channel, posts if every posted message was received, and changes nothing otherwise |
| Channel.PickupOutcome | include/cyfiber.h:492-498 | after any run, a sender that looks for the pickup reports success once its message was taken, also after a close, and otherwise the close or nothing |
| Channel.CloseOutcome | include/cyfiber.h:601-610 | a close posts and receives nothing, and answers 1 exactly the first time |
| Channel.PostedIsDelivered | include/cyfiber.h:501-543 | a message that is in the slot at a close is received by the next receiver that looks |
| ObjectGuard.GuardTable.FindSlot | include/cyexc.h:338-346 | the first slot on the probe path that is empty or holds the address, or the last fallback when there is none |
| ObjectGuard.GuardTable.Track | include/cyexc.h:348-358 | the table with the address live at its slot |
| ObjectGuard.GuardTable.Check | include/cyexc.h:390-396 | a report exactly when the found slot holds the address as deleted |
| ObjectGuard.GuardTable.NoteFree | include/cyexc.h:360-388 | a report for a deleted address; otherwise the slot marked deleted, the quarantine extended, and the oldest block given back and untracked when it is full |
| ObjectGuard.RingAppend | include/cyexc.h:368-384 | the ring below capacity grows its queue by the new block at the end |
| ObjectGuard.RingReplace | include/cyexc.h:368-384 | the full ring gives back its oldest block and takes the new one as the youngest |
| Quarantine.HoldsTheLatest | include/cyexc.h:368-384 | throughout a run the quarantine holds the latest deleted blocks, oldest first, as many as it can, and has given back all others |
| Quarantine.FindMeans | include/cyexc.h:338-346 | a search of the side table ends at the first slot from the home slot on, going round, that is empty or holds the address, or at the home slot if there is none |
| GuardRuns.RunIsSafeExactly | include/cyexc.h:329-388 | throughout a run every dead entry of a live address has a live one before it on its path, in spite of evictions that clear slots mid-chain and stale duplicates, if and only if no eviction clears an entry of a live object and leaves such a dead one bare |
| GuardRuns.RunIsSafe | include/cyexc.h:329-396 | so it is in every run in which the guard gives no live block back |
| GuardRuns.NoFalseReport | include/cyexc.h:360-396 | while the table has an empty slot and the guard gives no live block back to the allocator, no dereference and no first delete of a live tracked object is reported; the allocator may hand out any block that it has got back |
| GuardRuns.ProperKeepsLive | include/cyexc.h:299-307 | the guard gives no live block back if every delete that it does not report is of a block that was handed out and is not in the ring |
| GuardRuns.LiveDeletesAreProper | include/cyexc.h:299-307 | which holds of every program that deletes only live objects |
| GuardRuns.ShieldedExactly | include/cyexc.h:338-346 | a dead entry of an object is bare if and only if some further allocations, by filling the holes in front of it, make the guard report a dereference of the object |
| GuardRuns.FalseReportsExactly | include/cyexc.h:329-396 | some point of a run can be followed by a false report, after allocations alone, if and only if some eviction of the run clears an entry of a live object and leaves a dead one bare |
| GuardRuns.DoubleDeleteIsMisreported | include/cyexc.h:360-388 | a second delete that an eviction hides makes the guard give a block back that its ring still holds, and report a live object later: a concrete run |
| GuardRuns.ExactBeforeEviction | include/cyexc.h:360-396 | before the first eviction a dereference or delete is reported exactly when the address was deleted before |
| Arenas.RunConserves | include/cstring.h:116-188 | for any order of registry operations and any marks, the registered entries are those still registered, freed and handed out, counted |
| Arenas.ExactlyOnce | include/cstring.h:476-488 | if only entries that are not registered are registered, each registration of an entry has been freed once, handed out once, or is in force: also of an entry that is registered again after it was freed or handed out |
| Arenas.RunDistinct | include/cstring.h:464-488 | if only entries that are not registered are registered, none is ever registered twice at once, so no release frees anything twice |
| Arenas.RunFits | include/cstring.h:137-172 | the length never exceeds the capacity, across growth and shrinking |
| Arenas.ReleaseOrder | include/cstring.h:156-168 | a release frees Strings in the order of their registration and handles last in, first out, and so does the cleanup |
| Arenas.RunCapacity | include/cstring.h:125-168 | throughout a run the array has 64 places, doubled some number of times; a release that leaves less than a quarter in use halves it, and no other release shrinks it |
| Registries.StringRegistry.Track | include/cstring.h:125-145 | the pointer appended, the capacity doubled from 64 when full; NULL is ignored |
| Registries.StringRegistry.Attach | include/cstring.h:485-488 | the same as for a fresh allocation |
| Registries.StringRegistry.Checkpoint | include/cstring.h:151 | the number of registered entries |
| Registries.StringRegistry.ReleaseTo | include/cstring.h:156-168 | everything above the mark freed, in order, and the array halved when less than a quarter is used; a mark above the length does nothing |
| Registries.StringRegistry.ReleaseKeeping | include/cstring.h:176-188 | everything above the mark freed except the kept pointer, which is compacted to the mark |
| Registries.StringRegistry.Detach | include/cstring.h:464-474 | the first occurrence handed out and the last entry moved into its place; an unknown pointer changes nothing |
| Registries.StringRegistry.Cleanup | include/cstring.h:116-121 | everything freed, the registry empty |
| Registries.ObjectRegistry.Track | include/cobjarena.h:94-116 | the handle appended |
| Registries.ObjectRegistry.ReleaseTo | include/cobjarena.h:124-137 | everything above the mark destroyed, last first |
| Registries.ObjectRegistry.Detach | include/cobjarena.h:142-151 | the most recent handle of the pointer handed out and the last entry moved into its place |
| Registries.ObjectRegistry.Cleanup | include/cobjarena.h:83-90 | everything destroyed, last first |
| Unwinding.UnwoundAnyway | src/gen.c:11250-11271 | a throw out of a try body that overflows no cleanup stack, however deep and whatever the body detaches, reaches this try's frame; the dispatch leaves the pending cleanups and the frames as at try entry, those registered since have run last first, each once, and nothing that was registered at try entry is freed: it is still registered or was handed out |
| Unwinding.RestoredIff | include/cstring.h:156-172 | the dispatch leaves a registry exactly as at try entry if and only if nothing of it was handed out in the body, for every body that registers nothing of it again |
| Unwinding.Unwound | src/gen.c:11250-11271 | for a body that detaches nothing registered at try entry and overflows no cleanup stack, the dispatch leaves both registries, the pending cleanups and the frames as at try entry; the cleanups registered since ran last first, each once; what was allocated since is freed or handed out |
| Unwinding.AllRoom | include/cyexc.h:110-115 | no cleanup is dropped when the pending ones and the Defer statements of the program are at most 1024 together |
| Unwinding.DroppedPushDiscardsAnother | include/cyexc.h:110-126 | with a full stack, a block with one defer runs it at its normal exit and discards the last pending cleanup of an enclosing block in its stead, which an exception then no longer runs |
| Unwinding.LostCleanup | include/cyexc.h:110-136 | a try body with one slot left whose cleanup is neither pending nor has run after the dispatch: a concrete program |
| Unwinding.PendingNotRestored | include/cyexc.h:110-136 | with a full stack at try entry, a dispatch that leaves one pending cleanup less: a concrete program |
| Unwinding.PendingKeptExactly | src/gen.c:2489-2514 | a body without a try that exits normally leaves the pending cleanups as they were if and only if no registration was dropped or none was pending |
| Unwinding.Catching | src/gen.c:11276-11310 | the first clause that catches the exception, among the first 64 |
| Unwinding.DispatchRestores | include/cyexc.h:130-137 | releasing to the three marks of the top frame undoes everything above them |
| Unwinding.ScopeReclaims | src/gen.c:10750-10799 | a function that falls or returns out of its scope leaves the registries as at its entry, except that a returned String stays registered |
| Unwinding.ReturnedStringSurvives | src/gen.c:10790-10796 | a String returned from the scope that registered it stays registered for the caller and is not among what the exit freed, which is everything else above the entry length |
| Unwinding.ReturnedHandleSurvives | src/gen.c:10777-10789 | a handle returned from the scope that registered it is handed out and not destroyed, and all other handles above the entry length are |
| Unwinding.ExitFrees | src/gen.c:10750-10799 | any other exit frees exactly what was registered since the entry, Strings in order and handles last in, first out; a registry without a scope is left alone |
| Unwinding.IterationFrees | src/gen.c:4735-4746 | a turn of a loop that falls through its end does the same, and one that leaves otherwise frees nothing itself |
| Unwinding.CaughtOrThrownOn | src/gen.c:11279-11310 | a thrown exception goes on in the first of the first 64 clauses that names its id or none, from the state after the dispatch, or is thrown on from there |
| Unwinding.CreatedIsRegistered | include/cstring.h:125-145 | a String or handle is registered when it is created, unless it is NULL, and nothing else changes |
| Unwinding.DetachedIsHandedOut | include/cobjarena.h:142-151 | a detach hands out the first entry of a String or the latest of a handle, once, and frees nothing |
| Unwinding.Limits | include/cyexc.h:110-145 | a try ends the program at 256 frames; a registration is dropped at 1024 cleanups, although the block still replays it |
| Unwinding.ExecSteady | src/gen.c:11188-11247 | every statement leaves the frame stack as it found it and loses no registered entry |
| Unwinding.ExecSafe | include/cstring.h:156-188 | statements that detach nothing registered before a point leave what was registered at that point in place, even with stale marks |
| Unwinding.ExecOrderly | src/gen.c:2489-2514 | unless the stack overflowed, statements keep the pending cleanups below their own, replay their own at a normal exit, and run nothing twice |
| Unwinding.ReplayOrderly | src/gen.c:2489-2514 | the replay at a normal exit drops each cleanup from the stack and runs it, last first |
| Unwinding.DetachBelowTheMark | include/cstring.h:464-474 | detaching an entry from before the try lets a String of the body survive the dispatch: a concrete program |
| ExceptionState.Exceptions.PushDefer | include/cyexc.h:110-115 | one more pending cleanup, or a silent drop at 1024 |
| ExceptionState.Exceptions.Discard | include/cyexc.h:124-126 | the most recent cleanup dropped without running it |
| ExceptionState.Exceptions.ReleaseDefers | include/cyexc.h:130-136 | every cleanup above the mark run and dropped, last first |
| ExceptionState.Exceptions.Push | include/cyexc.h:139-145 | one more frame, or failure at 256, where the source aborts |
| ExceptionState.Exceptions.SetMarks | include/cyexc.h:162-168 | the three marks banked in the top frame |
| ExceptionState.Exceptions.EnterTry | src/gen.c:11188-11231 | try entry over the registries in place: a frame with the three checkpoints |
| ExceptionState.Exceptions.DispatchTop | src/gen.c:11250-11271 | the dispatch label over the registries in place does what the dispatch function says |
| SplitJoin.ReplaceAllIsJoin | include/cstring.h:373-419 | replace_all(s, n, r) = join(split(s, n), r) for every non-empty needle |
| SplitJoin.JoinSplit | include/cstring.h:662-743 | join(split(s, d), d) = s for every delimiter |
| SplitJoin.PiecesLack | include/cstring.h:688-716 | no piece of a split contains the delimiter |
| SplitJoin.SplitCount | include/cstring.h:680-686 | the first pass of split counts the pieces the second emits |
| SplitJoin.ReplaceCount | include/cstring.h:392-402 | the size computed after the first pass of replace_all is the size of what the second writes |
| SplitJoin.SplitJoin | include/cstring.h:662-743 | split(join(L, d), d) = L exactly when L is not empty, its last piece does not contain d, and no other piece shows d early in front of the joint |
| SplitJoin.SplitJoinByte | include/cstring.h:662-743 | for a one-byte delimiter: exactly when L is not empty and no piece contains the byte |
| SplitJoin.LongDelimiterMoves | include/cstring.h:662-743 | for a longer delimiter, pieces that lack it are not enough: a concrete list |
| Utf8.SubstrLength | include/cstring.h:277-290 | for all byte strings, a substring has as many code points as asked for, or as there are |
| Utf8.SubstrConcat | include/cstring.h:213-231 | for all byte strings, adjacent substrings concatenate |
| Utf8.SubstrSplit | include/cstring.h:277-290 | for all byte strings, substr(s, 0, k) + substr(s, k, length - k) = s |
| Utf8.ReplaceParts | include/cstring.h:335-367 | positional replace is what is before the position, the replacement, and what is after the region, for all byte strings |
| Utf8.FindCorrectExactly | include/cstring.h:296-330 | the needles for which find is right in every byte string: exactly those that do not begin with a continuation byte and whose last sequence is not cut off; right means that the returned index is the first at which the substring of the needle's length is the needle, and none is returned exactly when there is none |
| Utf8.FindCorrect | include/cstring.h:296-330 | in particular find is right for a well-formed needle, in any byte string |
| Utf8.NextBytesJoin | include/cstring.h:296-330 | a needle whose last sequence is cut off is found in front of the bytes that complete the sequence, where no substring is the needle |
| Utf8.FindInsideSequence | include/cstring.h:296-330 | every needle that begins with a continuation byte is found at index 1 after a lead byte, where no substring is the needle |
| CodePoints.EncodeSpells | include/cstring.h:198-202 | the encoding of section 3 of RFC 3629, from which the following are derived: the marker bits of each byte, and the payload bits, first byte first, give the code point |
| Utf8Text.LengthIsLeadingOnes | include/cstring.h:198-202 | the length of a sequence is the number of leading one bits of its first byte if that is two, three or four, and 1 for every other byte |
| Utf8Text.LengthCounts | include/cstring.h:249-268 | the length of an encoded text is its number of code points, and the text is well formed |
| Utf8Text.SubstrIsPart | include/cstring.h:277-290 | a substring of an encoded text is the encoding of those code points asked for that there are, for every position and length; there is none before the text |
| Utf8Text.ReplaceIsPart | include/cstring.h:335-367 | positional replace in an encoded text replaces those code points asked for that there are, for every position and length |
| Utf8Text.FindIsFirst | include/cstring.h:296-330 | find in an encoded text gives the first index at which the code points of the needle stand, and none exactly if they stand nowhere |
| CStrings.ByteLen | include/cstring.h:204-209 | the length of the text before the terminator |
| CStrings.Copy | include/cstring.h:241-244 | the bytes appended after those already written |
| StringMethods.SequenceAt | include/cstring.h:218-228 | the length of a sequence with all its continuation bytes, else 1, never looking past the terminator |
| StringMethods.AdvanceBy | include/cstring.h:213-231 | the position after up to cp sequences |
| StringMethods.StrLength | include/cstring.h:249-268 | the number of sequences |
| StringMethods.StrSubstr | include/cstring.h:277-290 | the substring as a fresh zero-terminated text, clamped |
| StringMethods.StrFind | include/cstring.h:296-330 | the index of the first match in code points, by a byte-wise scan |
| StringMethods.StrReplace | include/cstring.h:335-367 | the three-part concatenation as a fresh text |
| StringMethods.StrReplaceAll | include/cstring.h:373-419 | every match substituted, in a buffer that is filled exactly |
| StringMethods.StrSplit | include/cstring.h:662-716 | the pieces in an array that the first pass sized exactly; NULL gives an empty list |
| StringMethods.StrJoin | include/cstring.h:721-743 | the pieces joined, in a buffer that is filled exactly |
| SymbolIndex.ProbeStops | src/b2obj.c:1193-1200 | with a free slot every probe loop stops |
| SymbolIndex.InsertKeepsIndexed | src/b2obj.c:1175-1181 | after inserting the next name, which may be listed already, every lookup still agrees with a linear first-match scan |
| SymbolIndex.SymbolMap.Find | src/b2obj.c:1193-1201 | what a linear first-match scan over all names ever added returns |
| SymbolIndex.SymbolMap.Insert | src/b2obj.c:1175-1181 | the index extended by one name |
| SymbolIndex.SymbolMap.Rebuild | src/b2obj.c:1183-1190 | a larger index, its capacity a power of two and at most half full, that agrees with the linear scan again |
| SymbolIndex.SymbolMap.Add | src/b2obj.c:1203-1213 | the entry appended and the index brought up to date or rebuilt |
| SymbolPartition.NewIndexIsStable | src/b2obj.c:1358-1373 | locals come before globals, and symbols of one kind keep their order; no two get the same index |
| SymbolPartition.NewIndexInRange | src/b2obj.c:1358-1373 | locals get the first indices and globals the rest |
| SymbolPartition.Pass | src/b2obj.c:1358-1373 | one pass places its kind of symbols at their new indices, in order |
| SymbolPartition.Partition | src/b2obj.c:1349-1383 | first_global is the number of locals, the table is its stable partition, and every remapped entry denotes its original symbol |
| Leb128.UlebRoundTrip | src/dwarf-gen.h:48-55 | reading an unsigned LEB128 number gives it back, for every number and whatever follows |
| Leb128.SlebRoundTrip | src/dwarf-gen.h:57-68 | reading a signed LEB128 number gives it back, for every number and whatever follows |
| Leb128.UlebGroups | src/dwarf-gen.h:48-55 | the bytes hold the number in groups of seven bits, lowest first, with the high bit set on all but the last, and with no group more than it needs |
| Leb128.SlebGroups | src/dwarf-gen.h:57-68 | the same for signed numbers: what is behind the last group, and no other, are copies of its sign bit |
| Leb128.Buffer.PutUleb | src/dwarf-gen.h:48-55 | the loop appends the unsigned encoding |
| Leb128.Buffer.PutSleb | src/dwarf-gen.h:57-68 | the loop appends the signed encoding |
| LineProgram.ProgramMatchesLineMap | src/b2obj.c:1969-2036 | for nondecreasing pc offsets and every pc of the function, the line state machine gives the line of the last map entry at or below that pc, despite both de-duplication rules |
| LineProgram.FilesMatchExactly | src/b2obj.c:1963-2008 | the program gives every pc the file of its map entry, too, if and only if every entry that is the last one at or below some pc of the function has the file of the last entry up to it that does not repeat line and pc of the one before it, or 1 while no such entry has named a file |
| LineProgram.FilesMatch | src/b2obj.c:1963-2008 | it does for a map whose first entry has a file and in which no two entries for one line at one pc differ in the file |
| LineProgram.RepeatedEntryLosesItsFile | src/b2obj.c:1974-1977 | the first de-duplication rule drops the file of a second entry for one line at one pc: a concrete map |
| LineProgram.ColumnsMatchExactly | src/b2obj.c:1976-2003 | the program gives every pc the column of its map entry if and only if every entry that is the last one at or below some pc has the column of the last entry up to it that gets a row and has one, or 0 while there is none |
| LineProgram.SameLineLosesItsColumn | src/b2obj.c:1981-1983 | the second de-duplication rule drops the column of an entry on the line of the one before it: a concrete map |
| LineProgram.EmittedMoves | src/b2obj.c:1985-2008 | no instruction of a program advances by nothing or sets column 0 |
| LineProgram.ReadProgram | src/b2obj.c:1953-2036 | the emitted bytes decode to the emitted instructions |
| LineProgram.EmittedBytesMatchLineMap | src/b2obj.c:1953-2036 | running the line state machine over the emitted bytes, whatever follows them, gives the same lines |
| LineProgram.PutFunction | src/b2obj.c:1953-2036 | the emitting loop appends the encoding of the program |
| ChunkedBody.DechunkInverts | include/httpclient.h:468-504 | decoding inverts the chunked coding, for every list of non-empty chunks, with any extensions, and whatever follows |
| ChunkedBody.MessageComplete | include/httpclient.h:589-615 | the completeness test is true on a whole message, whatever follows |
| ChunkedBody.StrictPrefixIncomplete | include/httpclient.h:589-615 | the completeness test is false on every strict prefix of a trailer-free message |
| ChunkedBody.CompleteIff | include/httpclient.h:674-683 | a part of the stream is complete exactly when it holds the whole message |
| ChunkedBody.ReadWhole | include/httpclient.h:471-485 | a size line is read back: its size, and where the data starts |
| ChunkedBody.HexRead | include/httpclient.h:473-483 | hex digits that spell a number, in either case and most significant first, are read as it |
| ChunkedBody.HexSpells | include/httpclient.h:473-483 | whatever is read as a size is spelled by the digits that stand there |
| ChunkedBody.DecodeOne | include/httpclient.h:473-502 | one turn of the loop moves the data of one chunk down and keeps the write cursor at or below the read cursor |
| ChunkedBody.DechunkInPlace | include/httpclient.h:468-504 | the decoded body in front of the buffer, zero-terminated, for every input |
| ChunkedBody.ChunkedComplete | include/httpclient.h:589-615 | the loop computes the completeness test, for every input |
| ChunkedBody.ReadUntilComplete | include/httpclient.h:674-683 | however the stream is split, the loop stops at the first complete part it sees or at the close, and loses no byte |
| ChunkedBody.ReadChunked | include/httpclient.h:674-683 | a message that arrives in full is read whole, at exactly its end when nothing follows, and decodes to its payload, for every splitting |
| RequestReader.BlankLineFound | examples/http-serve-fibers.c:243-245 | the search finds the first blank line with no zero byte before it, or there is none |
| RequestReader.FirstRequestInPrefix | examples/http-serve-fibers.c:240-258 | a request is settled by its own bytes: reading ahead or less than the whole stream does not change it |
| RequestReader.RequestsConserve | examples/http-serve-fibers.c:240-258 | the requests and what is left concatenate to the stream |
| RequestReader.HeaderAndBody | examples/http-serve-fibers.c:245-251 | a header up to its only blank line and a body of the announced length make a request |
| RequestReader.PipelineRead | examples/http-serve-fibers.c:253-256 | pipelined well-formed requests are told apart again |
| RequestReader.LengthRead | examples/http-serve-fibers.c:112-134 | a Content-Length header yields its number: the first match of the key in any case, any spaces, the digits |
| RequestReader.NoLength | examples/http-serve-fibers.c:112-134 | without the key, or with no digit behind it, the length is 0 |
| RequestReader.KeyIsText | examples/http-serve-fibers.c:112-134 | what is looked for is "content-length:", each letter in either case |
| RequestReader.BlankLineIsText | examples/http-serve-fibers.c:243-245 | what ends a header are the four bytes of two line ends |
| RequestReader.SearchBlankLine | examples/http-serve-fibers.c:243 | the position strstr gives |
| RequestReader.ContentLengthOf | examples/http-serve-fibers.c:112-134 | the announced length of the header, 0 when there is none |
| RequestReader.Accumulator.TakeRequest | examples/http-serve-fibers.c:242-261 | the first request of the buffered bytes, if all of it is there, taken out of the buffer |
| RequestReader.Accumulator.Reserve | examples/http-serve-fibers.c:262-269 | room for 4096 more bytes and a terminator, nothing buffered changes |
| RequestReader.Accumulator.ReadRequest | examples/http-serve-fibers.c:240-275 | the first request of buffered and incoming bytes together, for every splitting; consumed and remaining bytes concatenate to those received |
| RequestReader.Accumulator.ReadAllRequests | examples/http-serve-fibers.c:240-275 | repeated calls yield the requests of a pure parse of the whole stream, for every splitting |

## Left out

- HashMap.Map: a moved-from map, whose table capacity is 0; copying of String keys and destruction of keys and values; ContainsValue, SetDefault, merging and iteration helpers, which follow from the dense order.
- HashMap.GroupBy: buckets are sequences, not List objects; capacities are not limited to 2^30.
- The Set container of include/set.h: it repeats Map, and its Remove looks the moved element up by equality after overwriting the dense slot, which include/map.h:471-474 explains can pick the wrong slot.
- Json: DICT_NUMBER values and integers beyond 2^53 take part in printing, parsing and the bounded printer, but not in the round trip, because they go through the C library's conversions; NULL nodes inside containers; error messages; the depth of the C stack.
- JsonParser.Parser: the growth of the output buffers is not modelled, strings under construction are values; arrays and objects are returned as values rather than heap nodes.
- BSON: the element writer stores a relative length into the document position (include/dict.h:1180, 1244), so no round trip holds.
- dict_find_path, sorting of keys and arena allocation of dicts.
- WorkerPool: a coroutine is suspended, running or dead; the switch itself, the idle sleep and the single-thread mode pumped by cy_sched_step are not modelled. One thread calls cy_sched_run and cy_sched_shutdown; a second join of the same threads, and a pool started again after a shutdown, are not modelled.
- Channel: the buffered channel, and parking itself: a parked sender or receiver is one that takes its locked step again later.
- GuardRuns.FalseReportsExactly: assumes that addresses with a given hash do not run out; addresses are unbounded.
- ObjectGuard: completeness after evictions and the behaviour when the table has no empty slot left.
- Unwinding: break and continue, which replay cleanups like a fall through a block; cleanups that are not trackable and so run only on normal exits; destructors and cleanups that themselves track, detach or throw; an uncaught exception is the outcome of the outermost statements.
- Registries: the exit handlers per thread; failure of realloc.
- LineProgram: functions without a line map or whose first line is 0; widths of the map's fields; relocation of the start address.
- SymbolPartition: other fields of a symbol than its binding and identity.
- src/b2objmac.c: its layout and partition repeat src/b2obj.c.
- ChunkedBody: trailers; overflow of the chunk size; the header phase and the Content-Length and read-to-EOF bodies of the client.
- RequestReader: error returns of recv, yielding while no data is ready, and the handling of a request.
- ShellSort.Sort: moves of nested collections are plain assignments.
- Sockets, TLS, file writing, ELF headers, SQLite, the terminal and the compiler front end.
