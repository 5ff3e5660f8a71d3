# Proofs about a small Raspberry Pi system

The repository is a bare-metal Raspberry Pi system: a support library, two thread
packages, a wireless link over a serial line, a bootloader and a FAT32 reader. This
project models the parts of it that keep state and change it step by step, and proves
what they keep, what they compute and where they do not do what they say.

| file | part of the system |
|---|---|
| `Crc.dfy` | the CRC-32 table and loop |
| `Random.dfy`, `RandomArrays.dfy` | the lagged-Fibonacci generator, one state array and many |
| `Ring.dfy`, `LockFree.dfy` | the circular queue, used from one side and shared with an interrupt handler |
| `LinkedQueue.dfy` | the intrusive linked queue |
| `Threads.dfy`, `Preemptive.dfy`, `ThreadBlocks.dfy` | the cooperative and the preemptive thread package, as values and on linked blocks |
| `Packets.dfy`, `Reassembly.dfy`, `Losses.dfy`, `FileTable.dfy` | sending, receiving, receiving with losses, and the descriptor table on linked blocks |
| `Boot.dfy`, `BootRuns.dfy`, `BootLinks.dfy`, `BootDemands.dfy` | both programs of the boot protocol, what each makes of the other's output, their runs byte by byte, and what each demands of words from anywhere |
| `Fat.dfy`, `Utf8.dfy` | cluster chains, and the encoding of long file names |
| `Words.dfy`, `Options.dfy` | machine integers, remainders, bytes of a word |

Every component is built the same way. A value-level function says what one operation
does to the state; a method in the source's own form (a class with the source's fields,
an array, a loop) is proved to do exactly that; and the main results are lemmas about
the functions over all inputs, all runs or all interleavings.

## Assumptions

- Unsigned arithmetic wraps at 2^32; signed arithmetic is taken to wrap as well; `/`
  and `%` on signed operands truncate. `char` is unsigned, as on ARM, and `long` has 32 bits.
- `kmalloc` returns zeroed memory that nothing else uses, and does not run out
  (libpi/include/rpi.h:138). Its source is not part of this model.
- A context switch (`rpi_cswitch`, `rpi_cswitch2`, `rpi_enter`) is one atomic change of
  the running thread, which starts or resumes with interrupts on; the scheduler thread
  runs with interrupts off.
- The accesses to the shared circular queue happen one at a time, each side's in program
  order, which is what the compiler barriers are for on a single processor.
- The boot links deliver bytes in order and lose none. `boot-crc32.h` is not part of
  this model; the checksum of both sides is taken to be that of libpi/libc/crc.c.
- Bit-fields are laid out from the low end of the word, and `esp_cmnd_pckt` is padded to
  its natural alignment, as the ARM calling standard has it.

## What the code does not do as it says

Each line names the member that settles when the code does meet its promise.

- `initstate_r` does not save the current state first, as its comment claims
  (random.c:257). A state array abandoned that way is later resumed in the right place
  exactly when it is of type 0 or the number of draws was a multiple of the degree:
  `RandomArrays.InitstateLosesPosition`, `RandomArrays.LeaveAndReturn`.
- "We must make sure the seed is not 0" (random.c:210) is not enough. The seeds 2^31 - 1 and
  2^31 + 1, and only those, fill the table with zeros behind its first word:
  `Random.SeedWordsLive`.
- `cq_nelem` is right for every queue only if `CQ_N` divides 2^32, though `CQ_N` may be
  chosen freely (circular.h:46): `Ring.NelemExact`.
- Thread ids are unique for up to 2^32 allocations and not beyond: `Threads.EveryRun`,
  `Threads.TidsWrap`.
- The preemptive `rpi_yield` turns interrupts off and, on an empty run queue, returns
  without turning them on again (threads/rpi-thread.c:174-177): `Preemptive.YieldInterrupts`.
  They stay off, and the timer away, exactly as long as the thread neither exits nor yields
  while another one is runnable: `Preemptive.LoneYieldStopsTimer`.
- `rpi_cswitch2` saves the scheduler thread's status with interrupts enabled
  (threads/thread-asm.S:43-44), so the assumption that they are off there is not secured by
  the code. It is needed: `save_context` keeps every block in one place exactly when it has
  interrupted a forked thread: `Preemptive.SaveContextConserves`.
- `get_fd` returns a copy of the descriptor, and its callers run `get_msg` on the copy,
  which takes nothing out of the table: `FileTable.Files.TakeThroughCopy` against
  `FileTable.Files.TakeFromTable`; likewise `get_status`, which clears nothing there:
  `FileTable.Files.StatusThroughCopy`. Over a whole run no queue ever shrinks, and the same
  message is handed out again until a packet arrives: `Reassembly.CopiesNeverTake`,
  `Reassembly.CopiesRepeat`.
- `init_fileTable` allocates the size of a pointer for each first message (fds.c:42). These
  messages overlap unless the allocator's unit is at least a whole message:
  `Reassembly.FirstMessagesApart`.
- Lost packets can make the receiver deliver a message spliced from several sends. It happens
  exactly when a command packet meets an idle descriptor, some of its data packets are lost,
  and data packets of sends that lost their own command packets make up the number it
  announced before another command packet arrives: `Losses.LossesExact` for any number of
  sends, `Losses.SplicedExactly`, `Losses.LossMixes` for two; a family of inputs:
  `Reassembly.LossCanMix`.
- Draining extra requests takes a second word with each of them (simple-boot.c:51-54). A boot
  on a clean line succeeds only after an odd number of requests: `BootLinks.StillExactly`,
  `BootLinks.BootsCleanly`. After garbage the number of requests left when the discard loop
  stops must be even.
- An empty string passes the test for suspicious length and makes `get_op` skip 2^32 characters,
  since the length is decremented unsigned (simple-boot.h:89): `BootDemands.GetOpPrinted`.
- The collision test of the bootloader wraps around (get-code.c:84): `BootRuns.CollisionTestExact`.
- Clusters whose numbers agree modulo 2^32 / sectors-per-cluster share their sectors:
  `Fat.ClustersDisjoint`.
- The table of the UTF-8 code has a row of zeros at its end where its loops look for a
  null pointer (unicode-utf8.c:32, 38, 50). The "out of bounds" answer -1 is never given; the
  search leaves the table instead: `Utf8.CodepointLen`, `Utf8.Utf8Len`.
- `to_cp` reads any bytes behind a first byte, also ones that are no continuation bytes, as in
  C3 28, unnecessarily long forms, such as C0 80, and forms above 0x10FFFF, such as
  F4 90 80 80. Which sequences are encodings can be told from their markers and first two
  bytes: `Utf8.EncodeDecode`. Surrogates, which section 3 of RFC 3629 forbids, are encoded
  like any code point and read back from two families of byte sequences:
  `Utf8.SurrogatesEncoded`, `Utf8.SurrogatesDecoded`, `Utf8.SurrogatesMarked`.

## Model

| member | source | states |
|---|---|---|
| Crc.TableDivides | libpi/libc/crc.c:8-52 | every one of the 256 table words is eight steps of bitwise division by the reflected CRC-32 polynomial |
| Crc.TableStepDivides | libpi/libc/crc.c:59 | one table step does to the register what eight bitwise division steps do |
| Crc.OurCrc32Inc | libpi/libc/crc.c:54-61 | the loop computes the bitwise remainder of exactly the first size bytes, continuing from the given CRC |
| Crc.OurCrc32 | libpi/libc/crc.c:63-65 | the same, from a CRC of zero |
| Crc.Composes | libpi/libc/crc.c:54-61 | the CRC of a concatenation is the CRC of the second part continued from that of the first |
| Crc.RegisterInjective | libpi/libc/crc.c:54-61 | different running values stay different under any further message |
| Crc.RegisterBits | libpi/libc/crc.c:54-61 | the register after a message is the register after its bits, the lowest bit of each byte first |
| Crc.ShortWindow | libpi/libc/crc.c:57-59 | up to 32 bits act on the register as one division of a 32-bit word |
| Crc.BurstDetected | libpi/libc/crc.c:54-61 | messages differing only inside a window of at most 32 bits, wherever it begins, have equal CRCs if and only if they are equal; one byte, aligned or not, is a special case |
| Crc.Residue | libpi/libc/crc.c:54-65 | a message followed by its own checksum, lowest byte first, always has checksum 0x2144DF1C |
| Crc.ZeroNoticed | libpi/libc/crc.c:57 | a zero byte in front of a message always changes its checksum |
| Random.PointersApart | libpi/libc/random.c:130-139 | front and rear never meet, never wrap on the same call, and stay sep apart after a draw |
| Random.DrawShifts | libpi/libc/random.c:156-180 | a draw yields v[deg] of the recurrence and turns the generator into the one for the recurrence shifted by one |
| Random.DrawNShifts | libpi/libc/random.c:156-180 | after n draws the whole recurrence is shifted by n and the rear pointer stands n slots further |
| Random.Trinomials | libpi/libc/random.c:85-125 | the lags in numbers: v[n] = v[n-7] + v[n-3] mod 2^32 for type 1, and 15 and 1, 31 and 3, 63 and 1 for types 2, 3 and 4 |
| Random.DrawsFollowRecurrence | libpi/libc/random.c:156-180 | for types 1 to 4 and every n, draw n adds the recurrence value in place and hands out the 31 bits of it above the lowest |
| Random.SeededStream | libpi/libc/random.c:209-240 | from seed to output: number n of a freshly seeded generator is the recurrence value 77 + n, 165 + n, 341 + n or 693 + n over the seeded table, without its lowest bit |
| Random.CongruentialStream | libpi/libc/random.c:149-155 | type 0 in closed form: number n is a^(n+1) x + 12345 (1 + a + ... + a^n) mod 2^31 with a = 1103515245 |
| Random.EffectiveSeed | libpi/libc/random.c:210-213 | the word has the bits of the seed, or is 1 for seed 0 |
| Random.SchrageExact | libpi/libc/random.c:222-229 | no part of the multiplication step leaves 32 bits, for any word, and the step is multiplication by 16807 modulo 2^31 - 1 |
| Random.NeverBecomesZero | libpi/libc/random.c:225-229 | the step yields zero modulo 2^31 - 1 exactly for words that are zero modulo 2^31 - 1 |
| Random.SeedWordsLive | libpi/libc/random.c:210-231 | every table word behind the first is nonzero, unless the seed is one of the two exceptions, and then none is |
| Random.WarmUpReturns | libpi/libc/random.c:233-240 | 10*deg warm-up draws bring both pointers back to where they started |
| Random.HeaderRoundTrip | libpi/libc/random.c:329-347 | the header word packs type and rear pointer without loss |
| Random.DecodeHeader | libpi/libc/random.c:334-347 | truncating division recovers type and rear pointer, for every header word; they are in range exactly for headers that describe a generator that fits |
| Random.KindFor | libpi/libc/random.c:270-281 | the chosen type is the largest whose table and header fit in n bytes |
| Random.RandomData.Random | libpi/libc/random.c:140-185 | the pointer code with its two wrap tests performs one draw; for types 1 to 4 the number returned is the word just stored at the old front slot without its lowest bit; header and spare words are untouched |
| Random.RandomData.AdvancePointers | libpi/libc/random.c:166-179 | the two tests move both pointers on by one slot |
| Random.RandomData.PackPointers | libpi/libc/random.c:329-332 | the header word becomes 5 * rear + type, or 0 for type 0, and nothing else changes |
| Random.RandomData.Srandom | libpi/libc/random.c:195-247 | unknown types are refused with nothing changed; otherwise the state is the seeded generator of that type |
| Random.RandomData.FillTable | libpi/libc/random.c:217-231 | table word i is 16807^i * seed modulo 2^31 - 1 |
| Random.RandomData.WarmUp | libpi/libc/random.c:235-240 | the discarded draws are n draws, and change nothing outside the table |
| Random.RandomData.Initstate | libpi/libc/random.c:260-305 | fails exactly below 8 bytes; otherwise a seeded generator of the largest fitting type, its header written; the array that was current keeps its words |
| Random.RandomData.Setstate | libpi/libc/random.c:315-356 | for any header: the old array is left with its pointers packed away, whatever the outcome; the result is a working generator, the one the header describes, if and only if that one fits the array; also when both arrays are the same |
| RandomArrays.SwitchKeepsAll | libpi/libc/random.c:307-314 | a switch changes the generator of no array, neither the one left, the one entered nor any other |
| RandomArrays.EachArrayAsIfAlone | libpi/libc/random.c:249-314 | over every mix of draws and switches among any number of arrays, each array hands out the stream it would have handed out alone |
| RandomArrays.Execute | libpi/libc/random.c:140-356 | any mix of random_r and setstate_r calls on one generator and several arrays in memory is such a run |
| RandomArrays.InitstateLosesPosition | libpi/libc/random.c:257-297 | an array abandoned after n draws resumes correctly if and only if it is of type 0 or n is a multiple of the degree |
| RandomArrays.LeaveAndReturn | libpi/libc/random.c:257-356 | the same for the calls themselves: n draws, initstate_r on another array, setstate_r back |
| Ring.PushAppends | libpi/libc/circular.h:102-114 | a push is refused exactly when all slots but one are in use, and otherwise appends |
| Ring.PopTakesFirst | libpi/libc/circular.h:74-86 | a pop removes the oldest element, and fails exactly on the empty queue |
| Ring.NelemExact | libpi/libc/circular.h:70 | the wrapped difference is the element count if and only if head >= tail or CQ_N divides 2^32 |
| Ring.CircularQueue.NumElements | libpi/libc/circular.h:70 | cq_nelem is the number of queued elements |
| Ring.CircularQueue.NumSpace | libpi/libc/circular.h:71 | cq_nspace is what still fits, and is 0 exactly when cq_full holds |
| Ring.CircularQueue.PushOne | libpi/libc/circular.h:102-114 | appends or refuses as above; the assertion on free space holds |
| Ring.CircularQueue.PopNonblock | libpi/libc/circular.h:74-86 | returns and removes the oldest element, or changes nothing |
| Ring.CircularQueue.Peek | libpi/libc/circular.h:117-124 | the oldest element, if any |
| Ring.CircularQueue.PopN | libpi/libc/circular.h:88-132 | the oldest n elements come out in order and the rest stay; with fewer than n queued, all of them come out before the call waits or panics |
| Ring.CircularQueue.PopNNonblock | libpi/libc/circular.h:134-139 | the oldest n elements or nothing at all |
| Ring.CircularQueue.PeekN | libpi/libc/circular.h:143-157 | copies what a pop of n would return and leaves the queue as it was; the final assertion holds |
| Ring.CircularQueue.PushN | libpi/libc/circular.h:161-175 | all elements or none; the panic in the loop is unreachable |
| Ring.RoundTrip | libpi/libc/circular.h:134-175 | a bulk push followed by a bulk pop gives back the old elements and then the new ones, byte for byte |
| Ring.PopThenRestore | libpi/libc/circular.h:218-219 | elements popped after a checkpoint are back after the restore |
| Ring.RestoreBringsBack | libpi/libc/circular.h:218-219 | restoring a checkpoint brings back all elements popped since and keeps all pushed since, if and only if together they fit |
| LockFree.StepKeepsInv | libpi/libc/circular.h:74-114 | no access by one side invalidates what the other side has established |
| LockFree.RunKeepsInv | libpi/libc/circular.h:74-114 | the same over every interleaving of the two sides' accesses |
| LockFree.PoppedInOrder | libpi/libc/circular.h:74-114 | in every reachable state the pushed values are the popped ones followed by the queued ones, in order |
| LockFree.NoUnreadSlotOverwritten | libpi/libc/circular.h:108-109 | every value pushed and not yet popped is in its slot before and after the producer's write, and none of these slots is the one written |
| LockFree.AssertionHolds | libpi/libc/circular.h:107 | whatever the consumer did since the test for full, cq_nspace is positive |
| LockFree.ReadIsOldest | libpi/libc/circular.h:79-83 | the value a pop is about to return is the oldest one not yet returned |
| LockFree.PopRefused | libpi/libc/circular.h:75-76 | in every reachable state the test of a pop ends the call if and only if the queue is empty at that moment |
| LockFree.PushRefused | libpi/libc/circular.h:103-104 | in every reachable state the test of a push ends the call if and only if all slots but one are in use at that moment |
| LockFree.PopCall | libpi/libc/circular.h:74-86 | otherwise the pop's steps, with any producer steps between them, can all be taken and act as the producer steps followed by one undivided pop of the element that was first when the call began |
| LockFree.PushCall | libpi/libc/circular.h:102-114 | likewise a push, with any consumer steps between its steps, acts as those followed by one undivided push, which succeeds |
| LinkedQueue.Queue.constructor | libpi/libc/Q.h:63-69 | a new queue is empty |
| LinkedQueue.Queue.Empty | libpi/libc/Q.h:18-24 | true exactly on the empty queue, and its assertions hold |
| LinkedQueue.Queue.Pop | libpi/libc/Q.h:27-40 | removes and returns the first node, or null; the links still form the remaining sequence; every disjoint queue is as it was |
| LinkedQueue.Queue.Append | libpi/libc/Q.h:43-52 | the node sequence gains the node at its end; every disjoint queue is as it was |
| LinkedQueue.Queue.Push | libpi/libc/Q.h:55-61 | the node sequence gains the node at its front; every disjoint queue is as it was |
| LinkedQueue.Queue.InsertAfter | libpi/libc/Q.h:72-82 | the node sequence gains the node right behind the given one, or at the front; every disjoint queue is as it was |
| LinkedQueue.Untouched | libpi/libc/Q.h:8-11 | an operation that writes neither a queue's fields nor its nodes' links leaves that queue as it was |
| LinkedQueue.WalkFromHead | libpi/libc/Q.h:13-15 | iterating by next from head meets exactly the queue's nodes in order and then ends |
| Threads.RunConserves | libpi/src/rpi-thread.c:42-192 | over every run of fork, yield, exit and start each block is in exactly one place and nalloced counts the blocks |
| Threads.RunKeepsTids | libpi/src/rpi-thread.c:28-53 | over every run, no two blocks carry the same tid while at most 2^32 were handed out |
| Threads.EveryRun | libpi/src/rpi-thread.c:42-192 | both of these for every run from static initialisation |
| Threads.TidsWrap | libpi/src/rpi-thread.c:28-51 | n threads forked one after another have n different tids if and only if n <= 2^32 |
| Threads.WaitsItsTurn | libpi/src/rpi-thread.c:131-165 | the thread at position i is i minus k from the front after k yields or exits, and current after i+1, whatever is forked before, between and after |
| Threads.YieldsRotate | libpi/src/rpi-thread.c:153-165 | k yields rotate the order of the runnable threads by k and change nothing else |
| Threads.FullRound | libpi/src/rpi-thread.c:153-165 | with n runnable threads, n yields bring the whole system back to where it was |
| Threads.StartRunsFirst | libpi/src/rpi-thread.c:174-192 | a start runs the front of the run queue, the rest keep their order, and only the first start allocates a scheduler block |
| Threads.ExitsInOrder | libpi/src/rpi-thread.c:131-144 | threads that only exit run in the order of the queue, and their blocks are freed last in, first out |
| Threads.AllExit | libpi/src/rpi-thread.c:131-144 | after the last exit the scheduler is current and every block is free |
| Threads.StartToEnd | libpi/src/rpi-thread.c:131-192 | a start and the exits of all threads end in the main program with nothing else changed |
| Threads.ExitedReusedFirst | libpi/src/rpi-thread.c:42-58 | the block of an exited thread is the next one handed out, with a new tid and no allocation |
| Preemptive.StepKeepsValid | project/preemptive-threads/threads/rpi-thread.c:98-298 | every step keeps each block in one place, with the scheduler block current exactly while the scheduler thread runs |
| Preemptive.StepSimulates | project/preemptive-threads/threads/rpi-thread.c:98-298 | save_context and a scheduler turn act as the cooperative yield, exit and a turn as the cooperative exit, fork, yield and start as themselves, also on the empty run queue |
| Preemptive.RunRefines | project/preemptive-threads/threads/rpi-thread.c:98-298 | every run is, block for block, a run of the cooperative package |
| Preemptive.EveryRunRefines | project/preemptive-threads/threads/rpi-thread.c:98-298 | the same from static initialisation, and every block stays in one place |
| Preemptive.PreemptiveWaitsItsTurn | project/preemptive-threads/threads/rpi-thread.c:147-298 | the same, positions and turn, with timer interrupts and scheduler turns anywhere in the run |
| Preemptive.YieldInterrupts | project/preemptive-threads/threads/rpi-thread.c:173-186 | a yield returns to a running thread with interrupts on if and only if the run queue was not empty |
| Preemptive.LoneYieldStopsTimer | project/preemptive-threads/threads/rpi-thread.c:173-177 | after a yield on the empty run queue interrupts stay off, and no timer interrupt comes, exactly as long as the thread neither exits nor yields while another is runnable |
| Preemptive.SaveContextConserves | project/preemptive-threads/threads/rpi-thread.c:270-294 | save_context keeps each block in one place if and only if the interrupted thread is a forked one, not the scheduler |
| ThreadBlocks.ThreadPackage.ThAlloc | libpi/src/rpi-thread.c:42-53 | on the linked queues: a freed block if there is one, otherwise a new one, with the next tid |
| ThreadBlocks.ThreadPackage.Fork | libpi/src/rpi-thread.c:85-124 | on the linked queues: the new block carries tid, code and argument and waits at the end of the run queue |
| ThreadBlocks.ThreadPackage.Yield | libpi/src/rpi-thread.c:153-165 | on the linked queues: the yield of the model, up to the switch |
| ThreadBlocks.ThreadPackage.CooperativeExit | libpi/src/rpi-thread.c:131-144 | on the linked queues: the cooperative exit |
| ThreadBlocks.ThreadPackage.CooperativeStart | libpi/src/rpi-thread.c:174-192 | on the linked queues: the cooperative start |
| ThreadBlocks.ThreadPackage.SaveContext | project/preemptive-threads/threads/rpi-thread.c:270-298 | on the linked queues: the timer step; its own test for an empty queue never holds |
| ThreadBlocks.ThreadPackage.PreemptiveExit | project/preemptive-threads/threads/rpi-thread.c:147-164 | on the linked queues: the preemptive exit, the same on both branches |
| ThreadBlocks.ThreadPackage.ScheduleNext | project/preemptive-threads/threads/rpi-thread.c:196-201 | on the linked queues: one turn of the scheduler loop |
| ThreadBlocks.ThreadPackage.ForkSched | project/preemptive-threads/threads/rpi-thread.c:122-142 | on the linked queues: a block with tid, code and argument, on no queue |
| ThreadBlocks.ThreadPackage.PreemptiveStart | project/preemptive-threads/threads/rpi-thread.c:213-226 | on the linked queues: the scheduler's block is on no queue when the scheduler is entered |
| Packets.HeaderWord | project/sw-uart/pi-esp.h:34-40 | the place of every header field in the 16-bit header word, for every packet |
| Packets.CmdPacketFields | project/sw-uart/pi-esp.h:44-55 | every field of a command packet, checksum included, is where the struct has it and holds what the sender set; all other bytes are zero |
| Packets.DataPacketFields | project/sw-uart/pi-esp.h:34-42 | likewise for a data packet: the payload bytes from byte 2 on, then zeros |
| Packets.DataPacketsJoin | project/sw-uart/pi-esp.c:155-173 | the payloads of the packets, joined, are the bytes given |
| Packets.Fragment | project/sw-uart/pi-esp.c:145-173 | the loop fills the array with exactly those packets and stays inside it |
| Packets.SendCmd | project/sw-uart/pi-esp.c:120-197 | one command packet announcing the size, then the data packets in order |
| Reassembly.DataFills | project/sw-uart/fds.c:226-244 | from any filled prefix on, the remaining data packets complete the message with the remaining bytes in place |
| Reassembly.SendCompletes | project/sw-uart/fds.c:161-244 | one whole send to an idle descriptor is one message beginning with the payload, and the descriptor is idle again |
| Reassembly.SendsComplete | project/sw-uart/fds.c:161-244 | n sends are n messages, for every n |
| Reassembly.NewestAre | project/sw-uart/fds.c:85-102 | the queued messages are those of the sends, newest first |
| Reassembly.DescriptorsApart | project/sw-uart/fds.c:165-178 | in any stream of packets each descriptor sees exactly its own sender's packets, in order |
| Reassembly.StatusIsLast | project/sw-uart/fds.c:168-189 | after any packets, the status of each descriptor, the system one included, is the command of the last packet that acknowledged to it, or as it was |
| Reassembly.AcksAside | project/sw-uart/fds.c:182-189 | acknowledgements anywhere between other packets disturb neither the messages nor the one under way |
| Reassembly.InterleavedSendsComplete | project/sw-uart/fds.c:161-244 | for any interleaving of the streams of sixteen senders, every descriptor holds one whole message per send of its sender |
| Reassembly.MessagesConserved | project/sw-uart/fds.c:63-102 | over every mix of arrivals and retrievals, each message completed from the one in the making is retrieved once or still queued |
| Reassembly.EachSendTakenOnce | project/sw-uart/fds.c:63-244 | over every mix of arrivals and retrievals in which a sender's packets form whole sends, these complete exactly one message each, and the messages of the sends are retrieved once or still queued |
| Reassembly.CopiesNeverTake | project/sw-uart/fds.c:56-69 | over every mix of arrivals and retrievals through copies, the table ends as without retrievals and no message leaves a queue |
| Reassembly.CopiesRepeat | project/sw-uart/fds.c:56-69 | until a packet of the sender arrives, each retrieval through a copy hands out the same message |
| Reassembly.HandleSound | project/sw-uart/fds.c:182-244 | for every packet: a copy leaves its buffers exactly for a data packet of a message claiming more than 30 bytes, and the invariant is lost exactly to a command that starts an empty message |
| Reassembly.HandleAllSound | project/sw-uart/fds.c:182-244 | over any sequence of packets, however lossy or mixed up, the invariant holds throughout if and only if no command starts an empty message |
| Reassembly.WholeSend | project/sw-uart/fds.c:190-224 | a whole send is delivered to an idle descriptor, and otherwise only makes it idle |
| Reassembly.TwoSendsRecover | project/sw-uart/fds.c:182-233 | from every state, of two whole sends the second is delivered, the first exactly if the descriptor was idle |
| Reassembly.PartialSend | project/sw-uart/fds.c:182-244 | a send with dropped packets delivers nothing, and leaves the descriptor idle exactly when the command packet was dropped |
| Reassembly.LossRecovery | project/sw-uart/fds.c:182-233 | packets of A lost, B and C whole: C is delivered; B is lost exactly when A's command got through but A did not complete |
| Reassembly.LossCanMix | project/sw-uart/fds.c:226-244 | for every two-packet message, a family of losses after which a mixture of two messages is delivered |
| Losses.SlotsFill | project/sw-uart/fds.c:226-244 | whatever data packets arrive, the i-th fills slot i, and the message is complete when as many have come as were announced |
| Losses.LossesExact | project/sw-uart/fds.c:182-244 | for any losses of any number of sends: which messages are delivered and what is under way, by running along the sends the number announced and the data packets arrived |
| Losses.SplicedExactly | project/sw-uart/fds.c:226-244 | data packets of any number of sends without command packets complete the unfinished message exactly when they are enough; it consists of the first n packets, whoever sent them |
| Losses.LossMixes | project/sw-uart/fds.c:182-244 | for any losses of two sends: a message spliced from both is delivered exactly under the stated condition, and then it alone; otherwise which of the two are delivered |
| Reassembly.FirstMessagesApart | project/sw-uart/fds.c:41-52 | the first messages are disjoint if and only if the allocator's unit covers a whole message |
| FileTable.Descriptor.HasMsg | project/sw-uart/fds.c:71-74 | true exactly when a message is queued |
| FileTable.Descriptor.GetMsg | project/sw-uart/fds.c:63-69 | takes the front message of the descriptor it is given |
| FileTable.Descriptor.AddMsg | project/sw-uart/fds.c:85-102 | the current message moves to the front of the queue and a fresh empty one replaces it |
| FileTable.Descriptor.GetStatus | project/sw-uart/fds.c:76-83 | returns the status and clears it |
| FileTable.Descriptor.Receive | project/sw-uart/fds.c:180-244 | on linked blocks: the packet state machine |
| FileTable.Files.constructor | project/sw-uart/fds.c:38-54 | seventeen idle descriptors that share no object |
| FileTable.Files.ReceiveMsg | project/sw-uart/fds.c:161-244 | on linked blocks: one descriptor changes as the state machine says, no other does |
| FileTable.Files.TakeThroughCopy | project/sw-uart/pi-esp.c:249-252 | get_msg on what get_fd returned yields the front message but leaves the table as it was |
| FileTable.Files.StatusThroughCopy | project/sw-uart/pi-esp.c:231-237 | get_status on what get_fd returned yields the status but leaves it set in the table |
| FileTable.Files.TakeFromTable | project/sw-uart/fds.c:63-69 | get_msg on the table's own descriptor removes the message |
| Boot.Tty.GetUint32 | project/shell/shell/put-get.c:32-39 | reads a little-endian word, or ends when the input does |
| Boot.Tty.ReadOp | project/shell/shell/simple-boot.h:72-100 | skips printed strings up to the next opcode |
| Boot.Synchronise | project/shell/shell/simple-boot.c:37-41 | the discard loop, for every input stream |
| Boot.DrainExtra | project/shell/shell/simple-boot.c:51-54 | the drain loop, for every input stream |
| Boot.SimpleBoot | project/shell/shell/simple-boot.c:17-69 | for every input: what is sent and whether the last check is passed |
| Boot.Board.PutK | project/shell/server/get-code.h:66-77 | opcode, length and characters of the string |
| Boot.Board.WaitForData | project/shell/server/get-code.c:46-50 | one more request than there were timeouts |
| Boot.Board.GetCode | project/shell/server/get-code.c:55-134 | for every input: what is sent, what is in memory and how it ends |
| Boot.Board.Receive | project/shell/server/get-code.c:90-134 | likewise for steps 4 to 7, up to a partially received program |
| BootRuns.UnixMore | project/shell/shell/simple-boot.c:17-69 | a Unix side that has succeeded is not affected by what arrives later |
| BootRuns.DrainPairs | project/shell/shell/simple-boot.c:51-54 | extra requests disappear in pairs |
| BootRuns.DrainOdd | project/shell/shell/simple-boot.c:51-54 | a last unpaired request swallows the first word of the answer |
| BootRuns.ReadBackStored | project/shell/server/get-code.c:105-113 | memory read back from the announced address is what was stored there |
| BootRuns.PiAnswers | project/shell/server/get-code.c:65-134 | for every prefix of what the Unix side sends, the answer is nothing, an error, or success with the program in memory; never success for a refused program |
| BootRuns.AfterRequests | project/shell/shell/simple-boot.c:50-67 | with n requests left to read, success exactly for even n and a booted Pi |
| BootRuns.BootSafety | project/shell/server/get-code.c:55-134 | in every joint run, for any number of requests, if the Unix side passes its last check then memory holds exactly buf from the announced address and get_code returned that address |
| BootRuns.CollisionTestExact | project/shell/server/get-code.c:76-88 | which programs the test accepts although they do not fit |
| BootDemands.PiAccepts | project/shell/server/get-code.c:65-134 | for any five words and any bytes of the announced length: the Pi runs them at the announced address if and only if both opcodes are right, the place is not refused and the checksum agrees; otherwise it reports BOOT_ERROR and reboots |
| BootDemands.StoredElsewhere | project/shell/server/get-code.c:105-108 | no address outside the announced range is written |
| BootDemands.ChecksumDetects | project/shell/server/get-code.c:110-113 | programs that differ only inside some 32-bit window have equal checksums if and only if they are equal; the checksum covers the whole program |
| BootDemands.DamageDetected | project/shell/server/get-code.c:110-116 | a program damaged on the way inside such a window is run if and only if it is not damaged at all; otherwise BOOT_ERROR is sent |
| BootDemands.UnixAccepts | project/shell/shell/simple-boot.c:50-67 | for any three words: the code is sent if and only if the first two are GET_CODE and the right checksum, and the boot succeeds if and only if the third is BOOT_SUCCESS too |
| BootDemands.GetOpPrinted | project/shell/shell/simple-boot.h:84-99 | strings of 1 to 511 characters are skipped exactly; longer ones end the program, an empty one makes it skip 2^32 characters |
| BootRuns.AlignedOrNot | project/shell/shell/simple-boot.c:28-33 | among repeated requests only word boundaries read as an opcode |
| BootRuns.SyncInside | project/shell/shell/simple-boot.c:37-41 | among repeated requests at most three discards lead to a word boundary |
| BootRuns.Resynchronises | project/shell/shell/simple-boot.c:37-41 | after garbage that contains no opcode at the places read, and requests that reach beyond the stop, the loop stops on a word boundary at most three discards after leaving the garbage |
| BootRuns.ResynchronisesExactly | project/shell/shell/simple-boot.c:37-41 | after such garbage the loop stops on the requests if and only if they reach beyond that place |
| BootRuns.FiveRequestsSuffice | project/shell/shell/simple-boot.c:37-41 | m requests reach beyond it for every length of garbage if and only if m >= 5 |
| BootRuns.SyncLeaves | project/shell/shell/simple-boot.c:37-41 | for any number of requests, when the loop stops on them a whole number of requests is left, and how many |
| BootLinks.RunsInOrder | project/shell/server/get-code.c:55-134 | in every run the links hold prefixes of what is sent, and the Pi is given nothing before the Unix side can have synchronised |
| BootLinks.BootSafetyAfterGarbage | project/shell/shell/simple-boot.c:26-69 | in every run, byte by byte, after any garbage that does not read as an opcode and any number of requests: if the Unix side passes its last check, memory holds exactly buf from the address get_code returns |
| BootLinks.StillExactly | project/shell/shell/simple-boot.c:17-69 | a run with nothing left to deliver has succeeded if and only if the requests suffice to synchronise, an even number is left then, and the Pi does not refuse the program |
| BootLinks.BootsCleanly | project/shell/shell/simple-boot.c:50-54 | without garbage that means an odd number of requests and a program not refused |
| BootLinks.Settles | project/shell/shell/simple-boot.c:17-69 | every run can go on until nothing is left to deliver |
| BootLinks.BootPossible | project/shell/shell/simple-boot.c:17-69 | some run succeeds if and only if that condition holds, and then every run can go on to a success |
| Fat.EndsIsChain | server-client-sw_uart/lib/fat32.c:132-139 | a walk that ends has followed the table, met no cluster twice and stopped at a last-cluster mark |
| Fat.ChainExactly | server-client-sw_uart/lib/fat32.c:132-139 | a walk ends with a chain if and only if the table links it up: from the start, entry by entry, without repetition, every cluster readable, to a last-cluster mark |
| Fat.CyclesForEver | server-client-sw_uart/lib/fat32.c:134-139 | a walk that meets its own path again never stops |
| Fat.WalkExact | server-client-sw_uart/lib/fat32.c:134-139 | for every table and start: the loop ends, fails or runs for ever exactly as the walk says |
| Fat.ReadClusterChain | server-client-sw_uart/lib/fat32.c:125-140 | terminates by unvisited clusters; the buffer holds the clusters' sectors in chain order and is untouched behind them, also after an error |
| Fat.SdReadCluster | server-client-sw_uart/lib/fat32.c:135-136 | one cluster is copied to where the pointer stands |
| Fat.SectorAt | server-client-sw_uart/lib/fat32.c:136 | byte j of the k-th sector read is byte j of that sector on the disk |
| Fat.ClustersInOrder | server-client-sw_uart/lib/fat32.c:80-88 | cluster 2 begins the data area, and clusters 2 to n+1 are its first n * sectors-per-cluster sectors |
| Fat.EntryTypes | server-client-sw_uart/lib/fat32-helpers.c:107-123 | which table entries are which type, told by division; the upper four bits never matter |
| Fat.ClustersDisjoint | server-client-sw_uart/lib/fat32.c:80-88 | two clusters occupy disjoint sectors if and only if their numbers differ modulo 2^32 / sectors-per-cluster |
| Utf8.CodepointLen | server-client-sw_uart/server/external-code/unicode-utf8.c:36-46 | the length for every value up to 0x10FFFF; beyond it the search leaves the table |
| Utf8.Utf8Len | server-client-sw_uart/server/external-code/unicode-utf8.c:48-58 | the length a first byte announces; for other bytes the search leaves the table |
| Utf8.ToUtf8 | server-client-sw_uart/server/external-code/unicode-utf8.c:60-76 | the shift loop writes the encoding of section 3 of RFC 3629 and a zero byte |
| Utf8.ToCp | server-client-sw_uart/server/external-code/unicode-utf8.c:78-90 | the shift loop computes the decoding of the bytes at its argument |
| Utf8.EncodedShape | server-client-sw_uart/server/external-code/unicode-utf8.c:60-76 | the first byte announces the length, the others are continuation bytes, none is zero |
| Utf8.DecodeEncode | server-client-sw_uart/server/external-code/unicode-utf8.c:60-90 | decoding an encoded code point gives it back, whatever follows |
| Utf8.TextRoundTrip | server-client-sw_uart/server/external-code/unicode-utf8.c:60-90 | every sequence of code points from 1 to 0x10FFFF survives encoding and decoding |
| Utf8.EncodedValue | server-client-sw_uart/server/external-code/unicode-utf8.c:60-76 | the bytes, counted from their markers on and in base 64, add up to the code point |
| Utf8.DecodedValue | server-client-sw_uart/server/external-code/unicode-utf8.c:78-90 | to_cp computes that sum from correctly marked bytes |
| Utf8.EncodeDecode | server-client-sw_uart/server/external-code/unicode-utf8.c:78-90 | of all bytes to_cp reads, those that are the encoding of what it reads are exactly the correctly marked shortest forms, a condition on the bytes |
| Utf8.SurrogatesEncoded | server-client-sw_uart/server/external-code/unicode-utf8.c:60-76 | to_utf8 encodes surrogates, to exactly the outputs that begin with ED and a byte from A0 on |
| Utf8.SurrogatesDecoded | server-client-sw_uart/server/external-code/unicode-utf8.c:78-90 | to_cp reads surrogates from exactly two families of bytes, whether or not the bytes behind the first are continuation bytes |
| Utf8.SurrogatesMarked | server-client-sw_uart/server/external-code/unicode-utf8.c:78-90 | among correctly marked bytes these are ED A0..BF xx and F0 8D A0..BF xx |

## Left out

- Hardware access: GPIO, UART, timer, watchdog, mailbox and SD controller registers, the debug coprocessor.
- Bit timing of the software UART, and its byte-level timeouts; packets arrive whole or not at all.
- The assembly context switches and saved registers; which thread runs is all that is modelled of a switch.
- libunix, the tty setup and the interactive shell.
- FAT writing, renaming, creating, deleting and truncating, which are stubs; directory entries.
- get_cluster_chain_length, whose loop test is the opposite of its comment (fat32.c:115); nothing is claimed about buffer sizes.
- The checksum in command packets: a parameter here, since the sender hashes a fixed number of bytes (pi-esp.c:176) and the receiver never looks at it.
- The values of cmd in a message block, of overflow and fence in a circular queue, and cq_push32 and cq_pop32_noblk, which would only add easy members.
- The return of -1 for null arguments in random.c.
- Ring.CircularQueue.PopN: an interrupt that delivers more elements while cq_pop waits; LockFree has the single pops and pushes interleaved.
- Weak memory ordering: the target has one processor, and only compiler reordering is prevented in the source.
- Exhaustion of kmalloc, and message sizes so close to 2^32 that the size of the buffer wraps (fds.c:212).
- A timer interrupt in the middle of the preemptive rpi_fork, which the source does not protect against; each call is one step.
- Starting the thread package from inside a thread, and yield or exit from the main program.
- Order of retrieval: add_msg pushes at the front, so messages come newest first; conservation is what is proved.
- Code point 0 in the UTF-8 code.
- Programs and payloads of 2^32 bytes or more, which the size fields cannot carry.
- Reassembly.HandleSound: a copy that leaves its buffers is reported as an outcome and left undone; what it would overwrite is not modelled.
- Random.RandomData.Setstate: what a generator does whose header does not fit its array; its pointers lie outside.
- FileTable.Descriptor.Receive: the data buffer of a message is a sequence inside its block rather than a separately allocated array.
- FileTable.Files.constructor: gives each first message its own memory, which init_fileTable does under the condition of FirstMessagesApart.
- Fat.ReadClusterChain: a table access out of range counts as a failure before the cluster is read, while the source has read the cluster's sectors by then; a chain that goes round in circles is excluded, since the source does not stop on one.
- Boot.Board.WaitForData: the number of timeouts before data shows up is a parameter; nothing is said about time.
- BootLinks.BootPossible: says that every run can go on to a success, not that deliveries happen; nothing is said about time.
- BootLinks.BootSafetyAfterGarbage: assumes that no word read inside the garbage is an opcode, which the loop would act on.
- ThreadBlocks.ThreadPackage.PreemptiveStart: only the first start, since entering the scheduler thread never returns.
- LinkedQueue.Queue.Append: requires a node that is not in the queue already, which the source leaves to its callers.
