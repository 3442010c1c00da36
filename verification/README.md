# Models of the driver and host-tool cores

This project models the parts of the repository that hold state, loops and arithmetic, and proves
what they keep over every input and every run. `dafny verify dfyconfig.toml` checks all of it.

* **Transport demultiplexer** (`local_src/driver/pti/pti_main.c`): the 32 slots and the PID table
  the firmware reads (`PtiPidTable`), the work queue between timer and injector (`PtiWorkQueue`),
  both variants of the ring poller (`PtiPoller`), the injector that sorts packets by tag
  (`PtiInjector`), the tables that lead from tags to sessions (`PtiSource`), and poller, queue and
  injector together, from the bytes the hardware writes to the payloads the demultiplexers receive
  (`PtiPipeline`).
* **SHA-1** (`local_src/host/mup/sh1.cpp`, `sh1.h`): the definition of FIPS 180-1 (`Sha1Spec`), the
  unrolled transform over sixteen words (`Sha1Transform`) and the streaming context (`Sha1`);
  `Words` says what sums and rotations of 32-bit words compute, in numbers and bit by bit. How
  sixteen words are loaded from 64 bytes is a parameter; as the guards of the header stand, a
  little-endian host does not swap them, and `LittleHash` says what it then computes.
* **IRD images** (`local_src/host/fup.src`): `Crc16`, the format (`IrdFormat`) and the tool over
  files with a position (`IrdTool`).
* **MUP images** (`local_src/host/mup`): the format, the reader and its round trip (`MupFormat`) and
  the three nested headers and the image built in memory (`MupTool`). Bytes that nobody writes are
  arbitrary. `Octets` holds what both formats share.
* **Smart card** (`local_src/driver/smartcard`): the answer to reset (`Atr`, `AtrReader`) and the
  half-duplex engine (`SciEngine` as steps in any order, `SciPort` as the driver's own code).
* **Tiled frame dump** (`local_src/tools/bpa2dump/bpa2dump.c`): `TileDump`.
* **CEC** (`local_src/driver/cec`): the search for a logical address (`Cec`, `CecDriver`).

Where the code mutates, the model has a class or an in-place method whose contract equates the new
state with a function of the old one; the theorems are about those functions.

Several promises do not hold of the code as it is. Each has its exact condition:

* A slot that is given a second PID loses track of the first, for good (`SetKeepsInvExactly`,
  `SecondPidIsNeverCleared`).
* Entries of the work queue are lost if and only if the overflow branch is taken or an entry is
  copied with more than 400 outstanding (`NothingLostExactly`); 400 queued while the injector sleeps
  are all discarded (`FullQueueIsLost`). A poller catches up if and only if it is less than 4096
  packets behind (`BothCatchesUpExactly`, `FirstCatchesUpExactly`).
* Each session keeps a tag of its own throughout a run if and only if every registration finds its own tag leading to
  it and every move finds a demultiplexer under the number of the tag it takes the session from
  (`EveryRunExactly`, `LoneSessionStrays`).
* A MUP reader finds exactly the partitions written if and only if all eight slots are used or the
  first unused one neither looks like an entry nor points out of the file (`ParseRecoversExactly`,
  `StaleSlotIsRead`). The data it takes end inside their region if and only if the slot leaves room
  for a whole header (`DataInsideExactly`).
* The ATR parser writes behind its array if and only if seven TD bytes follow one another and the
  bytes the seventh announces are there (`OverrunExactly`, `TenBytesOverrun`): its bound is tested
  before the counter is raised.
* A smart card write is cut short if and only if the next one comes before the FIFO is empty
  (`NextWriteLosesFifo`, `EarlyWrite`). A reply is read from its beginning and in full if and only if
  no byte is received between the test and the reset at the end of a read, where interrupts are
  enabled, and no read asks for more than a buffer when there is less (`RepliesIntactExactly`,
  `LostReply`, `LongReadOutruns`, `LongRead`).
* The dump of a frame is a permutation of the surface if and only if its height is divisible by 32
  (`DumpIsPermutation`).
* A search of the CEC driver that ends does so with the first free address if and only if no
  candidate up to that one, the last excepted, is disturbed more than three times (`SettlesExactly`).

## Model

| member | source | states |
|---|---|---|
| `PtiPidTable.WriteIsLocal` | local_src/driver/pti/pti_main.c:131-140 | a halfword write made as a read-modify-write of its word sets that halfword and leaves every other one, in the same word too, as it was |
| `PtiPidTable.NewSlotKeepsInv` | local_src/driver/pti/pti_main.c:950-971 | getting a slot keeps the bijection between collecting slots and table entries |
| `PtiPidTable.SetKeepsInvExactly` | local_src/driver/pti/pti_main.c:906-948 | setting a PID keeps the bijection if and only if it is refused, or the slot collects nothing yet and the PID is not the mark for none |
| `PtiPidTable.SecondPidIsNeverCleared` | local_src/driver/pti/pti_main.c:832-948 | a slot given a second PID leaves the first in the table through every run that follows: the firmware goes on collecting it and no slot is responsible |
| `PtiPidTable.OrphanStays` | local_src/driver/pti/pti_main.c:832-971 | a PID that no slot collects stays in the table in every run of calls on any slots, and the bijection never comes back |
| `PtiPidTable.ClearKeepsInv` | local_src/driver/pti/pti_main.c:832-874 | clearing with the last entry moved into the gap keeps the bijection |
| `PtiPidTable.FreeKeepsInv` | local_src/driver/pti/pti_main.c:876-892 | so does freeing |
| `PtiPidTable.TableFits` | local_src/driver/pti/pti_main.c:906-948 | the table never holds more entries than there are slots |
| `PtiPidTable.SetView` | local_src/driver/pti/pti_main.c:932-934 | after each single write of a set the firmware sees the old PIDs, then those and the new one |
| `PtiPidTable.ClearView` | local_src/driver/pti/pti_main.c:853-856 | after each single write of a clear the firmware sees every PID that stays and none that was not there |
| `PtiPidTable.ClearRemovesOnlyItsPid` | local_src/driver/pti/pti_main.c:832-874 | clearing takes exactly that slot's PID out of the collected ones |
| `PtiPidTable.StepRefines` | local_src/driver/pti/pti_main.c:832-971 | every operation is the one on a set of used slots and a map of their PIDs |
| `PtiPidTable.RunRefines` | local_src/driver/pti/pti_main.c:832-971 | every run keeps the bijection and is the run on sets and maps |
| `PtiPidTable.OverlappingSetsCollide` | local_src/driver/pti/pti_main.c:926-936 | two sets that overlap at the sleep between their writes end with both slots on one entry |
| `PtiPidTable.Controller.PtiWrite` | local_src/driver/pti/pti_main.c:131-140 | the word array after a halfword write |
| `PtiPidTable.Controller.GetNewSlotHandle` | local_src/driver/pti/pti_main.c:950-971 | the handle of the first unused slot, now used, or -1 |
| `PtiPidTable.Controller.SlotSetPid` | local_src/driver/pti/pti_main.c:906-948 | slots, table and memory after a set, with the result code; no halfword but those of table and count changes; what the firmware sees after each write |
| `PtiPidTable.Controller.SlotClearPid` | local_src/driver/pti/pti_main.c:832-874 | slots, table and memory after a clear, with the result code; no halfword but those of table and count changes; what the firmware sees after each write |
| `PtiPidTable.Controller.SlotFree` | local_src/driver/pti/pti_main.c:876-892 | slots, table and memory after a free, with the result code; no halfword but those of table and count changes; what the firmware sees after each write |
| `PtiWorkQueue.EveryRunKeepsInv` | local_src/driver/pti/pti_main.c:310-331 | under every interleaving of puts with the injector's single steps, slots, indices, semaphore and copies agree with the history |
| `PtiWorkQueue.TakenInOrder` | local_src/driver/pti/pti_main.c:310-331 | entries are taken in the order queued; between two taken, whole multiples of 400 are passed over |
| `PtiWorkQueue.LossesAreWholeRings` | local_src/driver/pti/pti_main.c:310-331 | once the semaphore is at zero, all entries are taken or discarded, discarded ones in multiples of 400 |
| `PtiWorkQueue.NothingLostExactly` | local_src/driver/pti/pti_main.c:310-331 | in every run nothing queued is lost or mixed up if and only if the overflow branch is never taken and no entry is copied with more than 400 outstanding |
| `PtiWorkQueue.NothingLostBelowCapacity` | local_src/driver/pti/pti_main.c:310-331 | so with fewer than 400 outstanding throughout: nothing is discarded and what is taken is what was queued |
| `PtiWorkQueue.FullQueueIsLost` | local_src/driver/pti/pti_main.c:310-331 | 400 entries queued while the injector sleeps are all discarded: the bound is tight |
| `PtiWorkQueue.WorkQueue.PutWork` | local_src/driver/pti/pti_main.c:539-557 | the queue after an entry is written, wherever the injector stands |
| `PtiWorkQueue.WorkQueue.BeginWork` | local_src/driver/pti/pti_main.c:310-331 | the queue after the injector has taken a token and copied an entry or discarded |
| `PtiWorkQueue.WorkQueue.EndWork` | local_src/driver/pti/pti_main.c:457-458 | the queue after the read index has moved |
| `PtiPoller.PollBothCovers` | local_src/driver/pti/pti_main.c:473-566 | one tick of the first variant queues exactly the packets complete since the last, modulo the ring, in order, inside the buffer |
| `PtiPoller.PollFirstCovers` | local_src/driver/pti/pti_main.c:570-680 | one tick of the second variant queues the part of them up to the end of the buffer |
| `PtiPoller.EveryRingRun` | local_src/driver/pti/pti_main.c:473-680 | in every run of writes and ticks, of either variant, the entries queued list consecutive packets from the first on |
| `PtiPoller.BothCatchesUpExactly` | local_src/driver/pti/pti_main.c:473-566 | an acknowledged tick has queued every complete packet once and in order if and only if fewer than 4096 were outstanding |
| `PtiPoller.FirstCatchesUpExactly` | local_src/driver/pti/pti_main.c:570-680 | two acknowledged ticks of the second variant do so on the same condition |
| `PtiPoller.Poller.ProcessPtiDma` | local_src/driver/pti/pti_main.c:473-566 | read pointer, reported count and work queue after a tick of the first variant |
| `PtiPoller.Poller.ProcessPtiDmaFirst` | local_src/driver/pti/pti_main.c:570-680 | the same for the second |
| `PtiInjector.BatchDeliversByTag` | local_src/driver/pti/pti_main.c:346-455 | for every batch and tag, the bytes handed over are that tag's packets without headers, in order, if a demultiplexer is registered, else none; every call carries 1 to 20 whole packets; nothing is left behind |
| `PtiInjector.BatchThrough` | local_src/driver/pti/pti_main.c:346-455 | what was handed over and what is still collected are together the tag's payloads |
| `PtiInjector.TagIsField` | local_src/driver/pti/pti_main.c:373-373 | a packet whose first byte is 64 hi + 4 t + lo carries tag t |
| `PtiInjector.ShiftAndMask` | local_src/driver/pti/pti_main.c:373-373 | the shift and mask read bits 2 to 5 of the byte as a number |
| `PtiInjector.BatchSizes` | local_src/driver/pti/pti_main.c:436-454 | the packets of a registered tag are handed over in calls of exactly twenty, and those left over in one last call |
| `PtiInjector.Injector.CopyPayload` | local_src/driver/pti/pti_main.c:428-436 | the payload lands in its tag's buffer, inside it, and no other buffer changes |
| `PtiInjector.Injector.SortPacket` | local_src/driver/pti/pti_main.c:373-447 | the buffers and calls after one packet |
| `PtiInjector.Injector.FlushRemainders` | local_src/driver/pti/pti_main.c:449-454 | the buffers and calls after the remainders |
| `PtiInjector.Injector.InjectBatch` | local_src/driver/pti/pti_main.c:346-455 | the calls made for one entry of the queue |
| `PtiSource.SetSourceSwapsExactly` | local_src/driver/pti/pti_main.c:978-1023 | moving a session to a source makes the source lead to it; it exchanges two tags, and leaves one tag to each session, if and only if the session is there already or the tag that led to it has a demultiplexer under its own number |
| `PtiSource.NewSessionKeepsExactly` | local_src/driver/pti/pti_main.c:1030-1040 | registering a session leaves one tag to each if and only if its own tag leads to it already |
| `PtiSource.EveryRunExactly` | local_src/driver/pti/pti_main.c:973-1040 | in every run of registrations and moves each session keeps a tag of its own throughout if and only if every step meets its condition |
| `PtiSource.MovesAreHarmless` | local_src/driver/pti/pti_main.c:978-1023 | with a demultiplexer in all four sessions every run of moves does |
| `PtiSource.LoneSessionStrays` | local_src/driver/pti/pti_main.c:997-1011 | a run of two moves after which two tags lead to one session and none to another |
| `PtiSource.MovedIsReached` | local_src/driver/pti/pti_main.c:441-453 | after a move, every call for packets of that source goes to the demultiplexer of the session |
| `PtiSource.Sessions.constructor` | local_src/driver/pti/pti_main.c:698-710 | no demultiplexer, and every tag leads to the session of its number |
| `PtiSource.Sessions.GetNewSessionHandle` | local_src/driver/pti/pti_main.c:1030-1040 | both tables after a registration, or unchanged for a source out of range |
| `PtiSource.Sessions.MoveTo` | local_src/driver/pti/pti_main.c:978-1023 | both tables after a move |
| `PtiPipeline.RingHoldsPacket` | local_src/driver/pti/pti_main.c:350-373 | while no more than a buffer was written since, the ring still holds packet `k` at its offset |
| `PtiPipeline.RunKeepsInv` | local_src/driver/pti/pti_main.c:281-680 | hardware, timer, with either poller, and injector in any interleaving keep the invariant that ties them together |
| `PtiPipeline.DeliveredInOrder` | local_src/driver/pti/pti_main.c:281-680 | in every run in which no entry is lost and no packet overwritten before it is copied, with either poller, the bytes handed over for a registered tag, with those still collected, are the payloads of its packets, in order and once each |
| `PtiPipeline.EverythingDelivered` | local_src/driver/pti/pti_main.c:281-680 | once poller and injector are idle, every complete packet the hardware wrote was delivered |
| `PtiPipeline.OnePacketRun` | local_src/driver/pti/pti_main.c:281-680 | such a run, for every packet: written, polled, injected, and all of the stream done |
| `Sha1Transform.Run` | local_src/host/mup/sh1.cpp:14-64 | eighty unrolled steps with rotated registers over sixteen words in place are the rounds of section 7 of FIPS 180-1 over an eighty-word schedule |
| `Sha1Transform.Blk` | local_src/host/mup/sh1.h:57-58 | a word of the circular schedule, overwritten in place, is the word of the expanded one |
| `Sha1Transform.R0` | local_src/host/mup/sh1.h:61-61 | a step with rotated register names is one round |
| `Sha1Transform.R3` | local_src/host/mup/sh1.h:64-64 | the same with the majority function in its shorter form |
| `Sha1Transform.Operate` | local_src/host/mup/sh1.h:61-65 | the sum and the rotation that all five macros share, each addition and rotation as the program writes it |
| `Sha1Transform.RolIsRotation` | local_src/host/mup/sh1.h:47-47 | the rotation macro is the circular shift by 1, 5 and 30 |
| `Sha1Transform.Mix` | local_src/host/mup/sh1.h:57-58 | the four words mixed and rotated are the next word of the schedule |
| `Words.PlusIsSum` | local_src/host/mup/sh1.h:61-65 | words add modulo 2^32, in numbers |
| `Words.Rol1Bits` | local_src/host/mup/sh1.h:47-47 | rotated by 1, bit i of a word is bit (i + 1) modulo 32, for every i |
| `Words.Rol5Bits` | local_src/host/mup/sh1.h:47-47 | the same by 5 |
| `Words.Rol30Bits` | local_src/host/mup/sh1.h:47-47 | the same by 30 |
| `Words.Rol1Number` | local_src/host/mup/sh1.h:47-47 | rotated by 1, a number x is 2 x modulo 2^32 plus x / 2^31 |
| `Words.Rol5Number` | local_src/host/mup/sh1.h:47-47 | rotated by 5, it is 32 x modulo 2^32 plus x / 2^27 |
| `Words.Rol30Number` | local_src/host/mup/sh1.h:47-47 | rotated by 30, it is 2^30 x modulo 2^32 plus x / 4 |
| `Sha1Spec.RoundNumber` | local_src/host/mup/sh1.h:61-65 | a round in numbers: the new first register is the sum of five terms modulo 2^32, one of them the old first register rotated by 5; one register is rotated by 30 and three move on |
| `Sha1Spec.WordNumber` | local_src/host/mup/sh1.h:51-56 | four bytes loaded most significant first are the number with these digits to base 256 |
| `Sha1Spec.BytesNumber` | local_src/host/mup/sh1.cpp:119-122 | the four bytes of a word of the digest are the digits of its number to base 256, most significant first |
| `Sha1Spec.Be32Number` | local_src/host/mup/sh1.cpp:110-113 | so are the bytes of a word of the length |
| `Sha1Spec.NumberDigits` | local_src/host/mup/sh1.cpp:119-122 | byte i of four is their number divided by 256^(3 - i), modulo 256 |
| `Sha1Transform.ScheduleIsExpanded` | local_src/host/mup/sh1.h:57-58 | the schedule satisfies its recurrence at every index |
| `Sha1.CountUpCounts` | local_src/host/mup/sh1.cpp:87-89 | the two-word counter with its carry is eight times the length modulo 2^64 |
| `Sha1.PlaceFromCount` | local_src/host/mup/sh1.cpp:87-87 | the place in the buffer read off the counter is the length modulo 64 |
| `Sha1.Context.Update` | local_src/host/mup/sh1.cpp:83-100 | the context has absorbed the message so far and the new piece, whatever their lengths |
| `Sha1.Context.PadZeros` | local_src/host/mup/sh1.cpp:115-117 | the padding loop ends and has added exactly the zeros section 4 of FIPS 180-1 asks for |
| `Sha1.WordBytes` | local_src/host/mup/sh1.cpp:110-122 | the four bytes of a word, each shifted down and masked |
| `Sha1.Context.LengthBytes` | local_src/host/mup/sh1.cpp:110-113 | the counter as eight bytes, its high word first |
| `Sha1.Context.DigestBytes` | local_src/host/mup/sh1.cpp:119-122 | the state as twenty bytes |
| `Sha1.Context.Final` | local_src/host/mup/sh1.cpp:105-132 | the digest is the hash of the whole message, and the context is wiped |
| `Sha1.HashPieces` | local_src/host/mup/sh1.cpp:69-132 | however a message is cut into updates, the digest is that of the padded message |
| `Sha1Spec.AbsorbConcat` | local_src/host/mup/sh1.cpp:90-97 | absorbing blocks in two goes is absorbing them at once |
| `Sha1Spec.LittleHash` | local_src/host/mup/sh1.h:31-56 | loading words in the other order computes the standard's function of the padded message with each word reversed |
| `Crc16.Crc16` | local_src/host/fup.src/crc16.c:62-67 | the loop computes the fold of the byte step |
| `Crc16.CrcConcat` | local_src/host/fup.src/crc16.c:62-67 | the CRC may be computed in pieces |
| `Crc16.TableIsDivision` | local_src/host/fup.src/crc16.c:9-42 | every entry of the table is eight steps of reflected division by 0x8005 |
| `Crc16.ByteIsDivision` | local_src/host/fup.src/crc16.c:49-52 | the table step is the division of eight bits |
| `Crc16.CrcIsBitSerial` | local_src/host/fup.src/crc16.c:62-67 | the table computation is the bit-serial division, for every start and block |
| `Crc16.AdjacentChangeDetected` | local_src/host/fup.src/crc16.c:62-67 | blocks that differ only within two adjacent bytes have different CRCs |
| `IrdFormat.BlockRoundTrip` | local_src/host/fup.src/fup.c:230-236 | a block written is read back whole with a matching checksum, whatever follows |
| `IrdFormat.PiecesJoin` | local_src/host/fup.src/fup.c:483-487 | the pieces of a part, the last one shorter and possibly empty, join to the part |
| `IrdFormat.PartRoundTrip` | local_src/host/fup.src/fup.c:302-314 | extracting a part's blocks appends its bytes to the file of its type |
| `IrdFormat.ImageRoundTrip` | local_src/host/fup.src/fup.c:380-390 | extracting a created image gives each type its parts in order; every checksum matches; the blocks are counted |
| `IrdFormat.FilesAreJoinedParts` | local_src/host/fup.src/fup.c:291-314 | a type has a file exactly if some part has it, and the file is those parts joined |
| `IrdFormat.RefreshRewritesBlock` | local_src/host/fup.src/fup.c:493-513 | the in-place refresh leaves a well-formed header block: only the field and the checksum differ, and the checksum matches |
| `IrdFormat.CountField` | local_src/host/fup.src/fup.c:501-501 | the refreshed field is the block count |
| `IrdFormat.ResellerChangeKeepsContents` | local_src/host/fup.src/fup.c:631-669 | a reseller change rewrites its field and the checksum, and extraction gives the same |
| `IrdFormat.ChangedBodyIsNoticed` | local_src/host/fup.src/fup.c:264-269 | a replaced body is reported exactly when the checksum tells the two apart |
| `IrdFormat.ImageIsSummed` | local_src/host/fup.src/fup.c:199-242 | a created file is a row of blocks, each with its length in bytes 0 and 1 and the checksum of its body in bytes 2 and 3 |
| `IrdTool.WriteBlock` | local_src/host/fup.src/fup.c:199-242 | the file grows by exactly the block of the next bytes of the part |
| `IrdTool.WriteFile` | local_src/host/fup.src/fup.c:483-487 | the loop writes all blocks of a part and counts them, in 16 bits |
| `IrdTool.RefreshHeader` | local_src/host/fup.src/fup.c:493-513 | the file after the header refresh |
| `IrdTool.Create` | local_src/host/fup.src/fup.c:407-513 | the created file is the image of the parts, its count field the sum of floor(size/0x7FFA)+1 modulo 2^16 |
| `IrdTool.ChangeReseller` | local_src/host/fup.src/fup.c:631-669 | the file after a reseller change, the length kept in a byte |
| `IrdTool.ReadNext` | local_src/host/fup.src/fup.c:244-323 | one call of the block reader on any file: what it reads, its verdict on the checksum, or why it stops |
| `IrdTool.ExtractAll` | local_src/host/fup.src/fup.c:380-390 | the extract loop on any file |
| `IrdTool.AdjacentChangeIsNoticed` | local_src/host/fup.src/fup.c:264-269 | a block changed within two adjacent bytes of its body is always reported |
| `IrdTool.ChecksumsAreRemainders` | local_src/host/fup.src/fup.c:230-236 | those two bytes are, in every block the tool creates, the remainder of the body in the bit-serial division from zero |
| `IrdTool.CrcIsRemainder` | local_src/host/fup.src/crc16.c:62-67 | the CRC from zero of any body is that remainder |
| `MupFormat.RegionsAligned` | local_src/host/mup/swinventory.cpp:125-145 | every region starts and ends on a multiple of 512 |
| `MupFormat.RegionsTile` | local_src/host/mup/swpack.cpp:163-176 | every byte of the file from 1024 on lies in exactly one region |
| `MupFormat.SlotRoundTrip` | local_src/host/mup/swinventory.cpp:41-58 | a written slot leads the reader to its region and its data, without the padding |
| `MupFormat.LayoutHasIndex` | local_src/host/mup/swpack.cpp:178-207 | a created image has the index the reader follows: every slot in use and the length in every header |
| `MupFormat.ParseFinds` | local_src/host/mup/swpack.cpp:50-78 | the reader finds all partitions in order and goes on behind them |
| `MupFormat.ParseRecoversExactly` | local_src/host/mup/swpack.cpp:50-78 | it finds exactly the partitions if and only if all slots are used or the first unused one is quiet |
| `MupFormat.StaleSlotIsRead` | local_src/host/mup/swpack.cpp:61-77 | an image whose unused slot still carries an entry is not read as what it is |
| `MupFormat.RegionRoundTrip` | local_src/host/mup/swunity.cpp:61-83 | a region gives back flash offset, name and bytes, and both checks match |
| `MupFormat.ImageRoundTrip` | local_src/host/mup/swpack.cpp:143-153 | the entries of a created image give back every partition byte for byte, and verification succeeds, for any hash and CRC |
| `MupFormat.DataInsideExactly` | local_src/host/mup/swunity.cpp:61-83 | what the reader takes for data is what the header says, at most what the slot leaves; it ends inside the region if and only if the slot leaves room for a whole header |
| `MupFormat.VerifyExactly` | local_src/host/mup/swunity.cpp:241-283 | on any image and any entries the check is defined if and only if all lie in the file, and succeeds if and only if for every one the twenty bytes and the word stored are hash and CRC of the bytes behind the header |
| `MupFormat.AlteredPassesExactly` | local_src/host/mup/swpack.cpp:143-153 | a created image whose partition was altered passes if and only if hash and CRC of the new bytes are those of the old |
| `MupFormat.AlteredIsFound` | local_src/host/mup/swpack.cpp:50-78 | the reader finds the partitions of an altered image as those of the first |
| `MupTool.PrintedWords` | local_src/host/mup/swunity.h:33-48 | product code, software version and date lie where the reader looks for them |
| `MupTool.SwUnity.SetPartition` | local_src/host/mup/swunity.cpp:314-344 | header and data as laid out for a partition, over memory of any contents |
| `MupTool.SwInventory.SetPartition` | local_src/host/mup/swinventory.cpp:125-145 | slot and padded region of a partition; the size is corrected after padding |
| `MupTool.SwPack.AppendPartition` | local_src/host/mup/swpack.cpp:163-176 | the partition is placed where the ones before it end |
| `MupTool.SwPack.CreateImage` | local_src/host/mup/swpack.cpp:178-207 | the image holds the pack header byte for byte and the slots and regions of all partitions, none overwritten by another |
| `MupTool.PlacePart` | local_src/host/mup/swpack.cpp:188-202 | copying one more partition in leaves those before it in place |
| `MupTool.Parse` | local_src/host/mup/swpack.cpp:50-78 | the loop over the slots, on any file |
| `MupTool.IsValid` | local_src/host/mup/swinventory.cpp:104-113 | whether a slot starts with the eight bytes of the magic and then the version |
| `MupTool.ParseEntry` | local_src/host/mup/swpack.cpp:63-77 | the entry of one slot, or how the loop ends there |
| `MupTool.ParseSlot` | local_src/host/mup/swinventory.cpp:41-58 | where the region of a slot is and how long its data are, on any file |
| `MupTool.Verify` | local_src/host/mup/swpack.cpp:143-153 | the loop over the entries, on any file: all are checked, also behind one that fails |
| `MupTool.VerifyUnity` | local_src/host/mup/swunity.cpp:241-283 | the verdict on one partition, both comparisons made |
| `Atr.TableIsInverse` | local_src/driver/smartcard/sci_drv.c:65-81 | every entry of the inversion table is the complement of the reversed bits |
| `Atr.TableTwice` | local_src/driver/smartcard/sci_drv.c:65-81 | the table undoes itself |
| `Atr.InverseTwice` | local_src/driver/smartcard/atr.h:87-95 | so does the parser's own inversion |
| `Atr.TableCounts` | local_src/driver/smartcard/atr.c:40-40 | the table of interface byte counts counts the bits that announce them |
| `Atr.ClockFromTable` | local_src/driver/smartcard/atr.c:39-39 | the clock table has no rate exactly for the reserved values |
| `Atr.GroupsSound` | local_src/driver/smartcard/atr.c:98-162 | the groups read are announced one by the other, at most seven, and are exactly the bytes read |
| `Atr.GroupsComplete` | local_src/driver/smartcard/atr.c:98-162 | groups so announced are read whole, whatever follows |
| `Atr.ParseExactly` | local_src/driver/smartcard/atr.c:65-201 | the parser returns record `a` if and only if `a` is well formed and the decoded buffer starts with what the printer makes of `a` |
| `Atr.AcceptedBits` | local_src/driver/smartcard/atr.c:65-201 | in every accepted record TA, TB, TC and TD of each group are there exactly if bits 4, 5, 6 and 7 of T0, or of the TD before, are set; there are as many historical bytes as the low half of T0 says; the check byte is there exactly if there is a TD and the low half of the last is not zero |
| `Atr.MasksTest` | local_src/driver/smartcard/atr.c:108-144 | the four tests of the parser are these bits |
| `Atr.LowHalf` | local_src/driver/smartcard/atr.c:149-149 | the masked low half is the byte modulo 16 |
| `Atr.PrintThenParse` | local_src/driver/smartcard/atr.c:420-456 | a well-formed record printed and parsed again is unchanged |
| `Atr.OverrunExactly` | local_src/driver/smartcard/atr.c:99-159 | the parser leaves its array if and only if seven TD bytes follow one another and the bytes the seventh announces are there |
| `Atr.TenBytesOverrun` | local_src/driver/smartcard/atr.c:143-158 | an answer of ten bytes that makes it do so |
| `Atr.HandlerAndParserAgree` | local_src/driver/smartcard/sci_drv.c:842-857 | an answer decoded by the interrupt handler is parsed to the same record as the raw one |
| `AtrReader.ReadGroups` | local_src/driver/smartcard/atr.c:98-162 | the loop ends and computes the groups, the pointer and whether a check byte follows |
| `AtrReader.InitFromArray` | local_src/driver/smartcard/atr.c:65-201 | the parser on any buffer; for an accepted one, the record printed is exactly the first `length` decoded bytes |
| `AtrReader.GetRaw` | local_src/driver/smartcard/atr.c:420-456 | the buffer and the length after printing |
| `SciEngine.StepKeepsInv` | local_src/driver/smartcard/sci_drv.c:816-922 | every write, interrupt, byte on the line, byte of the card and step of a read keeps the invariant |
| `SciEngine.EveryRunIsFaithful` | local_src/driver/smartcard/sci_drv.c:816-922 | in every run the card hears the written bytes in order and once each, the FIFO is never overfilled, and what reads return of the card's are bytes of its reply, in order and once each, never an echo |
| `SciEngine.RepliesIntactExactly` | local_src/driver/smartcard/sci_drv.c:2053-2103 | in every run no byte of a reply is passed over if and only if no interrupt with a received byte falls between the test and the reset at the end of a read and no read asks for more than a buffer when there is less; reads then return the beginning of the reply |
| `SciEngine.LostReply` | local_src/driver/smartcard/sci_drv.c:2093-2098 | a run in which the second of three reply bytes is received between test and reset and never read |
| `SciEngine.ReadReturnsReply` | local_src/driver/smartcard/sci_drv.c:2053-2103 | whenever a read goes ahead, all of the write was on the line and the bytes are the next of the reply behind those passed over, never an echo |
| `SciEngine.LongReadOutruns` | local_src/driver/smartcard/sci_drv.c:2085-2093 | a read returns more than was received if and only if it asks for more than a buffer and the buffer is not full from its first byte |
| `SciEngine.LongRead` | local_src/driver/smartcard/sci_drv.c:2085-2093 | a run with such a read: of 1024 bytes returned, one was received |
| `SciEngine.NextWriteLosesFifo` | local_src/driver/smartcard/sci_drv.c:2124-2166 | a write is cut short if and only if the next comes before the FIFO is empty |
| `SciEngine.EarlyWrite` | local_src/driver/smartcard/sci_drv.c:2124-2166 | a run in which that happens |
| `SciEngine.InterruptAdvances` | local_src/driver/smartcard/sci_drv.c:865-893 | an interrupt that finds the FIFO empty hands over the next bytes |
| `SciEngine.WriteCanFinish` | local_src/driver/smartcard/sci_drv.c:865-922 | from every state interrupts and the line alone bring the rest of the write to the card |
| `SciPort.HeardIsTurned` | local_src/driver/smartcard/sci_drv.c:854-855 | what the handler makes of a byte by its table is its complement reversed, if the card is inverse |
| `SciPort.CodingIsInvolution` | local_src/driver/smartcard/sci_drv.c:65-81 | a byte turned twice is itself: what the card hears is what was written, in either convention |
| `SciPort.KnownStays` | local_src/driver/smartcard/sci_drv.c:843-855 | once the convention is known, or the answer to reset complete, the handler turns every byte the same way |
| `SciPort.AnswerIsHeard` | local_src/driver/smartcard/sci_drv.c:842-857 | an answer to reset received byte by byte, the convention learned from it, is parsed to the same record as the raw one |
| `SciPort.Port.Decode` | local_src/driver/smartcard/sci_drv.c:842-857 | the convention and the byte stored after one byte was received |
| `SciPort.Port.Receive` | local_src/driver/smartcard/sci_drv.c:816-864 | buffer, pointer and convention after the receiving half of the handler |
| `SciPort.Port.Transmit` | local_src/driver/smartcard/sci_drv.c:878-893 | FIFO, pointers and interrupt mode after bytes were handed over |
| `SciPort.Port.Send` | local_src/driver/smartcard/sci_drv.c:865-922 | the port after the transmitting half |
| `SciPort.Port.Handler` | local_src/driver/smartcard/sci_drv.c:816-922 | the port after an interrupt, the convention known before or learned in it |
| `SciPort.Port.Write` | local_src/driver/smartcard/sci_drv.c:2124-2178 | the port after a write, or unchanged if it would block |
| `SciPort.Port.BeginRead` | local_src/driver/smartcard/sci_drv.c:2053-2093 | the port and the bytes after the copy of a read of any length, or unchanged if it would block |
| `SciPort.Port.TestEmpty` | local_src/driver/smartcard/sci_drv.c:2094-2094 | whether the buffer is found empty |
| `SciPort.Port.ResetStart` | local_src/driver/smartcard/sci_drv.c:2096-2096 | the port after the first pointer is set back |
| `SciPort.Port.ResetEnd` | local_src/driver/smartcard/sci_drv.c:2097-2097 | the port after the second, with what was received since the test forgotten |
| `TileDump.ChromaOffsetIsLumaEnd` | local_src/tools/bpa2dump/bpa2dump.c:223-223 | the rounding in the chroma offset gives exactly the end of the luma plane |
| `TileDump.PlaneAt` | local_src/tools/bpa2dump/bpa2dump.c:163-243 | which byte the nested loops put out at which position |
| `TileDump.TileInverts` | local_src/tools/bpa2dump/bpa2dump.c:115-183 | the address of every byte leads back to its position |
| `TileDump.LumaBits` | local_src/tools/bpa2dump/bpa2dump.c:115-143 | line and place are recovered from the low byte of a luma address |
| `TileDump.ChromaBits` | local_src/tools/bpa2dump/bpa2dump.c:131-158 | line, place and plane are recovered from the low byte of a chroma address |
| `TileDump.DumpIsInjective` | local_src/tools/bpa2dump/bpa2dump.c:208-243 | for every width divisible by 32 and height divisible by 16, w*h*3/2 bytes are put out and no address occurs twice |
| `TileDump.DumpIsPermutation` | local_src/tools/bpa2dump/bpa2dump.c:208-243 | the dump is a permutation of as many bytes of the surface as it puts out if and only if the height is divisible by 32 |
| `TileDump.LumaIsRaster` | local_src/tools/bpa2dump/bpa2dump.c:211-220 | the luma bytes come in raster order of their pixels, each from its address |
| `TileDump.ChromaIsRaster` | local_src/tools/bpa2dump/bpa2dump.c:222-242 | so do the bytes of each chroma plane |
| `TileDump.DumpedLuma` | local_src/tools/bpa2dump/bpa2dump.c:115-220 | the byte put out at position y w + x is the one at the tiled address of pixel (x, y), in closed form, for every pixel of every such frame |
| `TileDump.DumpedChroma` | local_src/tools/bpa2dump/bpa2dump.c:131-242 | behind the luma, Cb and then Cr at half width and height, each byte from its tiled address in closed form |
| `TileDump.WriteFrame` | local_src/tools/bpa2dump/bpa2dump.c:185-243 | the loops put out the surface at those addresses |
| `Cec.StepKeepsInv` | local_src/driver/cec/cec_opcodes.c:583-590 | whatever happens on the bus, the present address is the last candidate taken and the list is never left |
| `Cec.EveryRun` | local_src/driver/cec/cec_opcodes.c:644-656 | in every run the index stays within nine and candidates are taken in order, each once |
| `Cec.SearchStep` | local_src/driver/cec/cec_worker.c:239-313 | each event of the search goes on with the same candidate or the next, or ends it |
| `Cec.SettlesExactly` | local_src/driver/cec/cec_worker.c:239-313 | for every set of occupied addresses and in every run of the search that agrees with it and comes to an end, the driver ends with the first free candidate or unregistered if and only if no candidate up to that one, the last excepted, is disturbed more than three times |
| `Cec.CanSettle` | local_src/driver/cec/cec_worker.c:239-313 | on every bus the search can come to an end, with the first free candidate |
| `Cec.SettlesByRank` | local_src/driver/cec/cec_opcodes.c:54-64 | in every run of the search that ends without a disturbance too many, the address is free and every candidate before it is occupied, players first, then tuners, then recorders, ascending within each; on an empty bus it is 4, on a full one 15 |
| `Cec.EveryFrame` | local_src/driver/cec/cec_worker.c:71-126 | every event puts at most one frame on the wire, with the present address as its source: what was asked for, the announcement, or the last frame again |
| `CecDriver.Driver.WorkerInit` | local_src/driver/cec/cec_worker.c:136-146 | the first candidate is polled |
| `CecDriver.Driver.SendMessageWithRetry` | local_src/driver/cec/cec_worker.c:71-126 | the send buffer and flags after a send, its source corrected, or unchanged while another is out |
| `CecDriver.Driver.SendPingWithAutoIncrement` | local_src/driver/cec/cec_opcodes.c:644-656 | the variables after the next candidate is polled |
| `CecDriver.Driver.ParseRawMessage` | local_src/driver/cec/cec_opcodes.c:555-592 | a poll of the present address from that address moves on to the next |
| `CecDriver.Driver.OnSendError` | local_src/driver/cec/cec_worker.c:239-277 | the variables after a failed send |
| `CecDriver.Driver.OnSent` | local_src/driver/cec/cec_worker.c:303-313 | the variables after a send that was acknowledged |

## Left out

- PtiPoller.Poller.ProcessPtiDma: the discard branch of the poller and the reset of its DMA (`pti_main.c:495-505`) are not modelled; nor are the firmware binary, of which only the handshake on the acknowledged count appears.
- PtiPoller.Poller.ProcessPtiDmaFirst: the same branch of the second variant is not modelled.
- PtiPidTable.RunRefines: calls on slots do not overlap. They take no lock and sleep between their two writes; `OverlappingSetsCollide` shows what two at once do.
- PtiPidTable.SecondPidIsNeverCleared: asks that the table has room for each PID set; with orphans in it the source may write behind its end.
- PtiSource.SetSourceSwapsExactly: the source checks neither session nor source; both are taken to be below four, as its callers pass them. Registrations and moves are not interleaved with a batch.
- The timer function runs to its end undisturbed by the injector, as timers do on the single processor of these boxes; the injector may be interrupted between any two of its steps.
- The hardware's write pointer is taken to lie from the base to just below the top of the ring.
- Registers, PIO pins, delays, cache invalidation, ioctl and proc plumbing: they appear only as parameters or as steps of the environment.
- Sha1.Context.Update: asks for pieces shorter than 2^32 - 64 bytes, because the sums in the source wrap beyond that.
- Sha1.HashPieces: the same bound on each piece.
- SHA-1 through libgcrypt, and the second CRC-32 in `fup.src/crc32.cpp`; the CRC-32 of MUP images stands for any function.
- IrdTool.ChangeReseller: asks for a first block whose body has fewer than 256 bytes and lies in the file, since the source keeps the length in a byte; images it created have 16.
- Lengths below 6 in an IRD block make the source read fields that are not there; the model calls the outcome undefined and says no more.
- fup's signing, its `-ce` command and the zlib paths, which are compiled out.
- MupTool.SwPack.CreateImage: says of the partitions' regions nothing about product code, software version, date and update text, which the reader only prints; `PrintedWords` is about the headers before they are copied in.
- MupTool.SwPack.AppendPartition: asks for at most eight partitions, names shorter than 32 bytes without a zero, and an image below 2^32 bytes, which the fields of the format demand; the partition counter starts at zero.
- The files mup extracts, with slashes in their names replaced, and all printing and XML.
- ATR getters, parse_atr and the tables of `sci_params.c`.
- SciPort.Port.Handler: the branch for an overrun of the receive FIFO is not modelled, nor are parity and frame errors.
- SciEngine.Run: the read and write calls of the user do not overlap each other.
- The waiting loops of the read and write calls: a call that would wait is one that comes later. Card removal, and the second slot, whose handler is the same.
- A smart card answers a write only when all of it was on the line, as a half-duplex protocol demands.
- TileDump.WriteFrame: the surface is a function of the address; that the addresses lie in it is `DumpDistinct`.
- CecDriver.Driver.ParseRawMessage: messages with data and the replies to them are left out; they do not touch the variables of the search except through the sends that `Cec.Other` stands for.
- The reply table of CEC messages, framing bytes beyond the header, and the message buffer of `cec_dev.c`.
- The AVS chips, e2_proc, bpamem, evremote2, libmmeimage and the other small tools: branch-level or tables.
