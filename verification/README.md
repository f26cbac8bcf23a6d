# Mini Linux Runtime: a verified model

This project models the state machines at the core of the Mini Linux Runtime and proves what they
promise, for every input, every run and every interleaving. `dafny verify dfyconfig.toml` checks it.

| part | files | what it models |
|---|---|---|
| NIC descriptor rings | `NicModel`, `NicRing`, `NicInvariant`, `NicTheorems`, `NicCursors`, `NicErrors`, `NicFaults`, `NicInterrupts`, `NicPolls`, `NicResults`, `NicRecovery`, `NicCalls`, `NicDevice` | the two-thread driver/device ownership protocol, one step per atomic access, and the same functions as methods of an object |
| allocator | `Rounding`, `HeapModel`, `HeapRuns`, `HeapService`, `HeapSeam`, `Allocator` | the address-ordered doubly linked block list, in memory, with first fit, split, coalesce and arenas |
| framed protocol | `Basics`, `Bytes`, `BigEndian`, `Crc`, `CrcResidue`, `Protocol`, `ProtocolBytes`, `Transport` | bitwise CRC-32 (section 8 of RFC 1952), the packet codec, and framing over short reads and writes |
| ELF loader | `Loader` | the no-replace segment loader with rollback, and address translation |
| shell | `ShellLexer`, `ShellParser`, `ShellPrinter`, `ShellStages`, `ShellLexing`, `ShellGrammar` | tokenizer, pipeline parser, and every way of writing a pipeline down |
| UDP datapath | `NverWire`, `Datapath`, `DatapathBytes`, `DatapathRuns` | validation cascade, sessions, replay filter (section 3.2 of RFC 1982), counters, and the Python peer codec |
| ring buffer | `RingQueue`, `RingBuffer` | the bounded queue in both full-queue modes, and waiting |
| firmware container | `LittleEndian`, `Firmware`, `FirmwareBytes`, `FirmwarePolicy` | header, checksum, packing, verification and the anti-rollback policy |

How the parts are built:

- **NIC.** `NicModel` is a transition system: a program counter for each thread, one access to shared
  state per step, fault injection between any two steps. `History` records what happened (frames
  submitted, outcomes, results); no step looks at it. `NicInvariant.Inv` is kept by every step; the
  theorems follow from it for `Run(Init(capacity), events)` with any capacity from 1 to 64 and any
  schedule. `NicDevice.Nic` has the functions of the source as methods over arrays with full packet
  buffers; each is proved equal to running the corresponding steps to the end.
- **Allocator.** Addresses are numbers, a header takes 48 bytes, and the kernel's mmap is an argument:
  a fresh page-aligned range or a refusal. `Allocator.Allocator` keeps headers with `prev` and `next`
  at addresses and a byte memory; writing a header destroys the 48 bytes under it, so keeping the
  payloads of live blocks is something to prove.
- **Descriptors and files.** A `Descriptor` carries the bytes to come, the bytes written, and a plan
  that says how each call is answered: interrupted, failed, or up to so many bytes.
- **Loader.** An address space is a map from address to byte and protection. A list of refusals says
  which mmap, mprotect and realloc calls fail.
- **Independent readings.** What codecs, servers and parsers do with every input is also told without
  the functions that compute it: by the bytes (`ProtocolBytes`, `DatapathBytes`, `FirmwareBytes`), by the
  ways of writing a line down (`ShellLexing`, `ShellGrammar`), and by the events of a run
  (`NicFaults`, `NicInterrupts`, `NicPolls`, `NicResults`).

Three promises do not hold exactly as one would like, and are stated with the condition under which they do:

- freeing what was just allocated restores the block list exactly when the block borders no free
  block that coalescing would join (`HeapRuns.MallocThenFree`); that is always so in a single arena,
  and fails where two arenas happen to touch, a heap that six calls lead to (`HeapSeam.SeamIsLost`);
- a request whose rounding exceeds 64 bits is rounded to too small a size
  (`HeapRuns.SizesExact`, `HeapRuns.LargestRequestRoundsToZero`);
- a PT_LOAD header with file bytes but no memory is skipped by the loader and still used for
  translation (`Loader.TranslationExact`, `Loader.EmptySegmentTranslates`).

The remark on sequence-number wrap-around at projects/network-verification-lab/docs/TEST_PLAN.md:53 is
older than the code; the model follows the code.

## Model

| member | source | states |
|---|---|---|
| `NicInvariant.InitHolds` | firmware/nic_model.c:4-18 | every capacity from 1 to 64 starts in a state satisfying the ring invariant |
| `NicInvariant.DriverKeepsInv` | firmware/nic_model.c:19-93 | every single access of submit, reclaim, receive and take-interrupts keeps arcs, contents, counters and interrupt facts |
| `NicInvariant.DeviceKeepsInv` | firmware/nic_model.c:30-65 | every single access of the device keeps them too |
| `NicInvariant.RunKeepsInv` | firmware/nic_model.c:4-96 | the invariant holds after any interleaving of calls, steps and fault injections |
| `NicTheorems.OwnershipPartition` | firmware/nic_model.c:19-90 | in every reachable state the TX slots are three consecutive cyclic arcs, DONE from the reclaim to the device cursor, DEVICE from there to the submit cursor, FREE the rest, and the RX slots two, also when cursors coincide |
| `NicCursors.CursorsAreCounters` | firmware/nic_model.c:26-87 | each of the five cursors is an unbounded counter of its thread's moves modulo capacity |
| `NicTheorems.RaceFreedom` | firmware/nic_model.c:19-90 | no descriptor is ever in the hands of both threads |
| `NicTheorems.DriverTouchesOnlyHeld` | firmware/nic_model.c:19-90 | a driver step neither reads nor writes length, error or buffer of a descriptor outside the driver's hands |
| `NicTheorems.DeviceTouchesOnlyHeld` | firmware/nic_model.c:30-65 | nor does a device step those of one outside the device's, so these fields are never raced on |
| `NicTheorems.LoopbackIsFifo` | firmware/nic_model.c:35-90 | frames received, then those waiting in the RX ring, are byte for byte the processed submissions minus exactly the faulted and the dropped |
| `NicTheorems.DropExact` | firmware/nic_model.c:44-47 | a frame is dropped exactly when as many frames wait as the RX ring has slots |
| `NicTheorems.DeviceBooksBalance` | firmware/nic_model.c:38-57 | at iteration boundaries tx_completed = tx_errors + rx_completed + rx_no_buffer = frames processed, and tx_errors never exceeds the injections |
| `NicTheorems.BadLengthUnreachable` | firmware/nic_model.c:38-43 | the length test in the device never fires: the error branch is taken exactly for an injected fault |
| `NicTheorems.BackpressureExact` | firmware/nic_model.c:20-22 | submit returns 1 exactly when capacity descriptors are unreclaimed, and then changes nothing |
| `NicTheorems.ShortReceiveKeepsFrame` | firmware/nic_model.c:83-84 | a receive fails exactly when the next frame does not fit, and then changes nothing |
| `NicTheorems.ReclaimReallyDrains` | firmware/nic_model.c:66-79 | when reclaim returns no DONE descriptor is left, its cap notwithstanding |
| `NicTheorems.NoLostInterrupt` | firmware/nic_model.c:50-93 | after the bits were taken and both rings drained, any DONE descriptor shows in irq_status unless the device is between owner store and interrupt |
| `NicTheorems.SafeToSleep` | firmware/nic_model.c:50-93 | with the device idle, rings drained and no bit set, there is nothing to do |
| `NicTheorems.DrainedInLog` | firmware/nic_model.c:66-93 | what drained means in terms of the results of the driver's calls |
| `NicErrors.ErrorReportsExact` | firmware/nic_model.c:66-79 | the errors reported by all reclaims are the faults among the reclaimed descriptors |
| `NicFaults.FaultExact` | firmware/nic_model.c:38-43 | in every run the k-th frame the device takes is faulted exactly if a fault was injected between the exchange of the flag for the frame before it and its own, and the flag is up exactly if one was injected since the last exchange |
| `NicFaults.ErrorsAreDueFaults` | firmware/nic_model.c:38-41 | between frames tx_errors is the number of exchanges before which a fault was injected |
| `NicInterrupts.BitsExact` | firmware/nic_model.c:42-61 | in every run each interrupt bit is set exactly if a frame was completed, delivered or failed, and announced, since the bits were last taken |
| `NicInterrupts.TakenExact` | firmware/nic_model.c:91-93 | nic_take_interrupts returns exactly these bits and clears all three |
| `NicPolls.PollBounded` | firmware/nic_model.c:30-35 | in any interleaving a device step completes at most as many frames as it was asked to and as the ring has slots |
| `NicPolls.PollExact` | firmware/nic_model.c:30-65 | left to run, it completes and returns the least of the number asked for, the ring size and the frames waiting |
| `NicResults.ResultsExact` | firmware/nic_model.c:19-93 | between calls every call has a result that fits it, only packets of 1 to 1536 bytes are not refused as invalid, the frames handed to the device are the packets of the accepted submissions in order, the frames taken back are those the receives returned, and the reclaims reported as many descriptors as were freed |
| `NicResults.MirrorsExact` | firmware/nic_model.c:27-88 | the head and tail registers always hold the cursors they are copied from |
| `NicRecovery.AlwaysRecoverable` | firmware/nic_model.c:30-90 | from any reachable state, a device step with budget at least capacity, a reclaim, and receives until empty free all TX and repost all RX descriptors |
| `NicRecovery.RecoveredRuns` | firmware/nic_model.c:30-90 | that recovery is a run of the two threads |
| `NicRecovery.PollClearsBacklog` | firmware/nic_model.c:30-65 | a device step whose budget covers the backlog completes all of it |
| `NicRecovery.ReclaimClearsDone` | firmware/nic_model.c:66-79 | a reclaim left to run frees every completed descriptor |
| `NicRecovery.QuiescentAccepts` | firmware/nic_model.c:19-29 | a recovered ring accepts the next packet and hands it to the device |
| `NicCalls.SubmitIsItsSteps` | firmware/nic_model.c:19-29 | the steps of a submit add up to its effect in each of its cases |
| `NicCalls.ReceiveIsItsSteps` | firmware/nic_model.c:80-90 | the steps of a receive add up to its effect in each of its cases |
| `NicCalls.ReclaimIteration` | firmware/nic_model.c:70-77 | a turn of the reclaim loop frees one descriptor and counts its error |
| `NicCalls.ReclaimEnd` | firmware/nic_model.c:70-78 | when the loop ends the counts are returned and nothing else happens |
| `NicCalls.ReclaimIsItsSteps` | firmware/nic_model.c:66-79 | the steps of a whole reclaim add up to the loop that frees one DONE descriptor after another |
| `NicCalls.PollIteration` | firmware/nic_model.c:35-63 | a turn of the device loop faults, drops or delivers one frame, counts it and hands the descriptor back |
| `NicCalls.PollEnd` | firmware/nic_model.c:35-64 | the loop ends at the budget or at a descriptor that is not the device's |
| `NicCalls.PollIsItsSteps` | firmware/nic_model.c:30-65 | the steps of a whole device call add up to the loop that processes one frame after another |
| `NicDevice.Nic.constructor` | firmware/nic_model.c:6-17 | a new object is the initial state of the transition system |
| `NicDevice.Nic.Create` | firmware/nic_model.c:4-18 | a capacity outside 1 to 64 is refused, any other gives the initial state |
| `NicDevice.Nic.Submit` | firmware/nic_model.c:19-29 | the method is the run of the submit steps, and its code is the logged result |
| `NicDevice.Nic.Receive` | firmware/nic_model.c:80-90 | the method is the run of the receive steps, and returns the logged frame |
| `NicDevice.Nic.Reclaim` | firmware/nic_model.c:66-79 | the loop is the run of the reclaim steps, and returns the logged counts |
| `NicDevice.Nic.TakeInterrupts` | firmware/nic_model.c:91-93 | the bits are returned and cleared in one step |
| `NicDevice.Nic.InjectTxError` | firmware/nic_model.c:94-96 | the injection event |
| `NicDevice.Nic.DeviceStep` | firmware/nic_model.c:30-65 | the loop is the run of the device's poll, and returns the number of frames |
| `Rounding.RoundUp` | common/common.c:57-63 | the least multiple of a positive alignment that is not smaller |
| `Rounding.RoundUp64Exact` | common/common.c:57-63 | the 64-bit computation is right exactly when the result fits |
| `HeapModel.FindFit` | allocator/allocator.c:65-70 | the first block that is free and large enough |
| `HeapModel.Rank` | allocator/allocator.c:31-45 | the position in address order |
| `HeapRuns.SizesExact` | allocator/allocator.c:27-52 | the 64-bit sizes of a request are the intended ones exactly for representable requests |
| `HeapRuns.LargestRequestRoundsToZero` | common/common.c:57-63 | the largest request rounds to zero |
| `HeapRuns.TakeWellFormed` | allocator/allocator.c:72-85 | splitting and handing out a block keeps order, alignment, tiling and maximal coalescing |
| `HeapRuns.GrowWellFormed` | allocator/allocator.c:47-63 | so does adding a fresh arena |
| `HeapRuns.ReleaseWellFormed` | allocator/allocator.c:87-134 | so does freeing with both coalescing steps |
| `HeapRuns.MallocCorrect` | allocator/allocator.c:101-116 | null exactly for size 0 or when no block fits and the kernel refuses, and then nothing changed; otherwise a fresh aligned block of at least the rounded size and less than 64 bytes more, all other live blocks as before, and a new arena only if nothing fitted |
| `HeapRuns.FreeCorrect` | allocator/allocator.c:118-134 | exactly the one block stops being live |
| `HeapService.MallocPlaced` | allocator/allocator.c:47-116 | a request is served from the lowest free block that fits, and the arenas stay; if none fits, from the start of a new arena of whole pages, no larger than needed for the request and the 64 KiB minimum |
| `HeapService.StatsExact` | allocator/allocator.c:136-150 | allocated blocks and bytes are the number and total size of the live blocks, free ones those of the others |
| `HeapRuns.LiveDisjoint` | allocator/allocator.c:101-134 | live blocks never overlap |
| `HeapRuns.RunWellFormed` | allocator/allocator.c:31-134 | after any sequence of malloc and free the blocks are sorted, disjoint, 16-aligned, tile the arenas exactly, and two free neighbours meet only at an arena's base |
| `HeapRuns.StatsConserved` | allocator/allocator.c:136-150 | the statistics account for every mapped byte |
| `HeapRuns.BytesConserved` | allocator/allocator.c:50-150 | allocated + free + 48 per block = mapped, after any sequence of calls |
| `HeapRuns.SingleArenaHasNoGaps` | allocator/allocator.c:47-85 | in one arena every block ends where the next begins |
| `HeapRuns.IdleSingleArenaIsOneBlock` | allocator/allocator.c:87-134 | a single arena without live blocks is one free block |
| `HeapRuns.FreeAllRestoresArena` | allocator/allocator.c:118-134 | freeing all live blocks of a single arena in any order leaves one free block spanning it |
| `HeapRuns.MallocThenFree` | allocator/allocator.c:72-134 | free undoes malloc exactly when the block borders no free block |
| `HeapRuns.SingleArenaMallocThenFree` | allocator/allocator.c:72-134 | in a single arena it always does |
| `HeapSeam.SeamIsReached` | allocator/allocator.c:47-134 | six calls from the empty heap that leave two touching arenas, both wholly free |
| `HeapSeam.SeamIsLost` | allocator/allocator.c:47-134 | there malloc followed by free fuses the arenas into one block |
| `Allocator.Allocator.constructor` | allocator/allocator.c:23-25 | the empty list represents the empty heap |
| `Allocator.Allocator.FindFitting` | allocator/allocator.c:65-70 | the walk along `next` finds the first fit, or null |
| `Allocator.Allocator.InsertSorted` | allocator/allocator.c:31-45 | the pointer stores link the block in at its rank, and no live payload byte changes |
| `Allocator.Allocator.MapArena` | allocator/allocator.c:47-63 | the list then represents the grown heap |
| `Allocator.Allocator.SplitBlock` | allocator/allocator.c:72-85 | the pointer stores represent the split list, or nothing changed if there is no room |
| `Allocator.Allocator.CoalesceWithNext` | allocator/allocator.c:92-99 | the pointer stores represent the coalesced list |
| `Allocator.Allocator.Malloc` | allocator/allocator.c:101-116 | the linked list and the pointer are those of the specification, in 64-bit arithmetic, and the payload of every block that was live is unchanged |
| `Allocator.Allocator.Free` | allocator/allocator.c:118-134 | the linked list is that of the specification, and the payload of every block still live is unchanged |
| `Allocator.Allocator.GetStats` | allocator/allocator.c:136-150 | the totals over the list, which add up to the mapped bytes |
| `Crc.EightBits` | protocol/embedded_protocol.c:38-41 | the masked loop over eight bits is eight applications of the bit step |
| `Crc.CrcUpdate` | protocol/embedded_protocol.c:34-44 | the loop over the data is the fold of the byte step |
| `Crc.BitStepLinear` | protocol/embedded_protocol.c:38-41 | the bit step respects exclusive or |
| `Crc.BitStepInjective` | protocol/embedded_protocol.c:38-41 | the bit step is injective, hence a bijection on 32-bit states |
| `Crc.UpdateConcat` | protocol/embedded_protocol.c:34-44 | a CRC may be computed in pieces |
| `Crc.UpdateInjective` | protocol/embedded_protocol.c:34-44 | the same data takes different states to different states |
| `Crc.FourBytesInjective` | protocol/embedded_protocol.c:34-44 | from one state different four-byte strings lead to different states |
| `Crc.BurstChangesCrc` | protocol/embedded_protocol.c:34-52 | two strings of any length that differ only inside four consecutive bytes have different CRCs |
| `CrcResidue.ResidueLaw` | protocol/embedded_protocol.c:30-52 | data followed by its CRC, low byte first, always leaves the residue 0xDEBB20E3, which fixes start value, polynomial and final complement |
| `CrcResidue.CrcOfNothing` | protocol/embedded_protocol.c:46-52 | the CRC of no data is 0 |
| `CrcResidue.CheckValue` | tests/test_protocol.c:10-11 | the CRC of the characters 1 to 9 is 0xcbf43926 |
| `BigEndian.Get16Put16` | protocol/embedded_protocol.c:7-21 | 16-bit numbers survive the wire |
| `BigEndian.Put16Get16` | protocol/embedded_protocol.c:7-21 | two bytes survive being read as a number |
| `BigEndian.Get32Put32` | protocol/embedded_protocol.c:12-28 | 32-bit numbers survive the wire |
| `BigEndian.Put32Get32` | protocol/embedded_protocol.c:12-28 | four bytes survive being read as a number |
| `BigEndian.Order16` | protocol/embedded_protocol.c:7-21 | the byte order of 16-bit numbers: most significant first |
| `BigEndian.Order32` | protocol/embedded_protocol.c:12-28 | and of 32-bit numbers |
| `Protocol.PacketEncode` | protocol/embedded_protocol.c:54-72 | the stores fill the buffer with the frame and leave the rest, or report too big and leave all |
| `Protocol.PacketDecode` | protocol/embedded_protocol.c:74-95 | the cascade of checks with their errors |
| `Protocol.DecodeFrame` | protocol/embedded_protocol.c:54-95 | a frame decodes to its packet with version 1 and zero tail, or is refused if the version was neither 0 nor 1 |
| `Protocol.DecodeExact` | protocol/embedded_protocol.c:54-95 | a byte string decodes to p exactly when it is the frame of the canonical packet p |
| `Protocol.NormalFrame` | protocol/embedded_protocol.c:54-72 | a packet and its normal form have the same frame |
| `Protocol.DamageDetected` | protocol/embedded_protocol.c:34-95 | a frame changed inside four consecutive bytes of header and payload, or inside the CRC field, never decodes |
| `Protocol.ReadOneFrame` | protocol/embedded_protocol.c:133-145 | a frame at the head of a stream is read as its packet and the rest is left |
| `Protocol.StreamRoundTrip` | protocol/embedded_protocol.c:54-145 | reading concatenated frames yields exactly the packets, then end of file |
| `ProtocolBytes.FrameLayout` | protocol/embedded_protocol.c:54-72 | where every field of a frame stands, byte by byte |
| `ProtocolBytes.DecodeErrors` | protocol/embedded_protocol.c:74-95 | which error every byte string that is no frame gets, by its bytes |
| `ProtocolBytes.EncodeExact` | protocol/embedded_protocol.c:54-59 | the encoder fails exactly for more than 512 bytes of payload or too small a buffer |
| `ProtocolBytes.ReadErrors` | protocol/embedded_protocol.c:133-145 | what one read from a stream yields and how many bytes it takes, by the bytes to come |
| `ProtocolBytes.TruncatedStream` | protocol/embedded_protocol.c:111-145 | a stream of frames cut anywhere yields the packets that are whole, and then end of file |
| `Transport.Descriptor.ReadAll` | protocol/embedded_protocol.c:111-123 | exactly the next bytes, or end of file if there are fewer, or an error if a call failed |
| `Transport.Descriptor.WriteAll` | protocol/embedded_protocol.c:97-109 | the whole buffer is appended, or a prefix and an error |
| `Transport.Descriptor.WritePacket` | protocol/embedded_protocol.c:125-131 | the frame is appended, or nothing if the packet is too big |
| `Transport.Descriptor.ReadPacket` | protocol/embedded_protocol.c:133-145 | unless a call fails the outcome depends on the bytes alone, not on how they arrive |
| `Transport.Exchange` | protocol/embedded_protocol.c:54-145 | for any list of packets and any splitting of writes and reads the receiver gets those packets, then end of file |
| `Loader.MappingList.Add` | loader/loader.c:26-36 | the mapping is recorded, or nothing changed |
| `Loader.MappingList.UnmapAll` | loader/loader.c:38-45 | all recorded mappings are removed, the latest first, and the list is empty |
| `Loader.ImageHasInterp` | loader/loader.c:74-81 | true exactly if some header is PT_INTERP |
| `Loader.MapFilePart` | loader/loader.c:115-140 | file pages with the BSS part zeroed and final protection, or a state that unmapping takes back |
| `Loader.MapAnonPart` | loader/loader.c:142-157 | the zero pages behind them, or a state that unmapping takes back |
| `Loader.MapSegment` | loader/loader.c:83-160 | the segment's image is added on free addresses, or a refusal, an invalid header or an occupied address is to blame and unmapping takes back what was done |
| `Loader.MapImage` | loader/loader.c:162-182 | success adds exactly the segments and unmapping them restores the old space; any failure leaves the old space; without refusals it succeeds exactly for acceptable images |
| `Loader.SegmentMeaning` | loader/loader.c:97-157 | a segment's image holds the file's bytes, zeros up to memsz, and on all its pages read, write and execute permission exactly by the flag bits 4, 2 and 1 |
| `Loader.LoadedMeaning` | loader/loader.c:83-182 | the same of every PT_LOAD in the final address space |
| `Loader.PagesExact` | loader/loader.c:97-110 | a segment occupies exactly the pages that its memory touches |
| `Loader.AcceptableExact` | loader/loader.c:162-182 | an image is loaded, unless the kernel refuses something, exactly if it is ET_EXEC without PT_INTERP and every PT_LOAD with memory lies within the file, agrees with its offset modulo the page, and has pages apart from the others and from what was mapped |
| `Loader.LoadedKeeps` | loader/loader.c:172-181 | what was mapped before stays, byte for byte |
| `Loader.LoadedOnly` | loader/loader.c:172-181 | nothing is mapped beyond what was and the segments' pages |
| `Loader.VaddrToOffset` | elf/elf_parser.c:324-346 | the first PT_LOAD whose file range holds the address decides |
| `Loader.TranslationHolds` | elf/elf_parser.c:324-346 | the loaded byte is the file's byte at the translated offset if the deciding header has memsz other than 0 |
| `Loader.TranslationExact` | elf/elf_parser.c:324-346 | where nothing else covers the address it is so exactly then |
| `Loader.EmptySegmentTranslates` | loader/loader.c:175 | an image whose only address translates and is not mapped |
| `ShellLexer.TokenizeWord` | shell/parser.c:66-85 | the loop over quote and escape states reads the word of the specification, or its error |
| `ShellLexer.Tokenize` | shell/parser.c:52-88 | the loop over the line yields the tokens of the specification, or its error |
| `ShellLexer.LexWritten` | shell/parser.c:52-88 | tokens written with any mix of quotes, escapes and white space are read back |
| `ShellLexing.LexExact` | shell/parser.c:52-88 | a line reads as tokens exactly if it is white space followed by a way of writing these tokens down |
| `ShellLexing.LexErrorExact` | shell/parser.c:66-85 | it is refused exactly if it ends behind a backslash or inside quotes, and the error says which |
| `ShellParser.ShellPipeline.ParseLine` | shell/parser.c:107-156 | the pipeline of the specification, or its error and an empty pipeline |
| `ShellParser.ShellPipeline.BuildStages` | shell/parser.c:116-144 | the token loop builds the stages of the specification, or its error |
| `ShellParser.ShellPipeline.CheckStages` | shell/parser.c:145-149 | the first complaint about the stages |
| `ShellParser.ComplaintExact` | shell/parser.c:145-149 | none exactly if every stage has an argument, only the first has input and only the last output redirected |
| `ShellParser.ParsedIsWellFormed` | shell/parser.c:107-156 | every nonempty successful parse is well formed |
| `ShellParser.ParsedEmpty` | shell/parser.c:113 | a parse is empty exactly for a line without tokens |
| `ShellPrinter.ParseInvertsWriting` | shell/parser.c:52-156 | any way of writing a well-formed pipeline down parses to it |
| `ShellPrinter.ParseInvertsPrint` | shell/parser.c:52-156 | printing and parsing are inverse, for arbitrary words |
| `ShellPrinter.PrintThenParse` | shell/parser.c:107-156 | printing a pipeline of C strings and calling the parser on the line gives the pipeline back |
| `ShellPrinter.ParsedExactly` | shell/parser.c:107-156 | what some line parses to is exactly the well-formed pipelines and the empty one |
| `ShellPrinter.RedirectionMoves` | shell/parser.c:117-144 | moving a redirection past a word does not change the result, if no redirection operator stands before |
| `ShellStages.StageMeaning` | shell/parser.c:117-144 | a stage is built exactly if it has at most one input and one output redirection, and then from its words and these, wherever they stand |
| `ShellStages.StageArrangement` | shell/parser.c:107-156 | any arrangement of a stage's redirections among its words parses to the same pipeline, or fails like the others |
| `ShellGrammar.ParseExact` | shell/parser.c:107-156 | a line parses to a pipeline exactly if its tokens are one stage of words and redirections for each command, separated by pipes, with & at the very end exactly for a background pipeline, and words and redirections stand where they may |
| `ShellGrammar.RefusalExact` | shell/parser.c:107-156 | a line is refused with an error exactly if the tokenizer gives it, or it is the first token after sound stages that explains it, or the first stage at fault |
| `ShellPrinter.RedirectionMovesOnlyThen` | shell/parser.c:132-134 | if one does, the moved form never parses |
| `ShellPrinter.UnmovedFormParses` | shell/parser.c:132-143 | while the form it came from may |
| `NverWire.Crc32Of` | projects/network-verification-lab/src/datapath.cpp:50-58 | the conditional loop is the same CRC update |
| `NverWire.EncodeDatagram` | projects/network-verification-lab/src/datapath.cpp:69-86 | the appended bytes are prefix, checksum of prefix and payload in two parts, and payload |
| `NverWire.CrcInTwoParts` | projects/network-verification-lab/src/datapath.cpp:81-83 | the two-part CRC is the CRC of the concatenation |
| `NverWire.EncodersAgree` | projects/network-verification-lab/python/nver_protocol.py:35-42 | the C++ and the Python encoder produce the same datagram |
| `NverWire.PeerRoundTrip` | projects/network-verification-lab/python/nver_protocol.py:35-57 | the peer decodes what it encodes, exactly if magic and version are right |
| `NverWire.PeerDecodeExact` | projects/network-verification-lab/python/nver_protocol.py:45-57 | it decodes nothing else |
| `DatapathBytes.PeerErrors` | projects/network-verification-lab/python/nver_protocol.py:45-57 | which check of the peer every datagram passes or fails first, by its bytes |
| `NverWire.ReplyDecodes` | projects/network-verification-lab/src/datapath.cpp:69-86 | the peer reads every reply as it was meant |
| `Datapath.Server.Process` | projects/network-verification-lab/src/datapath.cpp:103-162 | verdict, new state and reply are those of the specification |
| `Datapath.Server.Check` | projects/network-verification-lab/src/datapath.cpp:105-128 | the order of the format checks |
| `Datapath.Server.Dispatch` | projects/network-verification-lab/src/datapath.cpp:129-161 | data, statistics, reset and the rest |
| `Datapath.ValidateExact` | projects/network-verification-lab/src/datapath.cpp:105-128 | the format checks pass exactly the datagrams that encode a packet with zero flags and at most 1400 bytes |
| `Datapath.AckFaithful` | projects/network-verification-lab/src/datapath.cpp:144-148 | an accepted datagram and its ACK decode under the peer codec to the same session, sequence and payload |
| `DatapathBytes.ValidateBytes` | projects/network-verification-lab/src/datapath.cpp:105-128 | which format check every datagram passes or fails first, by its bytes |
| `DatapathBytes.BadFormatExact` | projects/network-verification-lab/src/datapath.cpp:104-128 | a datagram of bad format gets no reply and adds one to datagrams, invalid and the counter of the first check it fails |
| `DatapathBytes.DataExact` | projects/network-verification-lab/src/datapath.cpp:129-149 | a data packet is dropped for want of room in a table of 64 or as a replay, each under its counter, and otherwise recorded, counted and echoed |
| `DatapathBytes.ControlExact` | projects/network-verification-lab/src/datapath.cpp:150-161 | kind 3 and kind 5 with zero session, sequence and length report and clear; any other kind is counted as a type error |
| `DatapathBytes.StatsExact` | projects/network-verification-lab/src/datapath.cpp:150-153 | a packet that the peer codec decodes as an empty statistics request changes only the datagram count and is answered with kind 4 and the text of the counters |
| `DatapathBytes.ResetExact` | projects/network-verification-lab/src/datapath.cpp:154-158 | an empty reset request brings back the initial state and is answered with kind 6 |
| `DatapathBytes.RepliesExact` | projects/network-verification-lab/src/datapath.cpp:150-158 | a reply of kind 4 comes of a statistics request only, one of kind 6 of a reset request only |
| `DatapathBytes.OtherTypesDropped` | projects/network-verification-lab/src/datapath.cpp:159-161 | any other well-formed packet that is not data gets no reply and adds one to the type errors |
| `DatapathRuns.RunExplained` | projects/network-verification-lab/src/datapath.cpp:103-162 | over every run each counter is the number of verdicts of its kind since the last reset, the table holds each session's last sequence, and there are at most 64 sessions |
| `DatapathRuns.BooksBalance` | projects/network-verification-lab/src/datapath.cpp:103-161 | datagrams = accepted + invalid + statistics requests, and invalid is the sum of the six error counters |
| `DatapathRuns.UnwrappedCongruent` | projects/network-verification-lab/src/datapath.cpp:136-144 | each session's sequence is an unbounded counter modulo 2^32 |
| `DatapathRuns.UnwrappedGrows` | projects/network-verification-lab/src/datapath.cpp:136-144 | which grows by 1 to 2^31 - 1 with each accepted packet |
| `DatapathRuns.ReplayNeedsTwoOthers` | projects/network-verification-lab/src/datapath.cpp:129-148 | over every run a session accepts a sequence again only after at least two other packets |
| `DatapathRuns.InOrderIsAccepted` | projects/network-verification-lab/src/datapath.cpp:129-148 | a run of data packets whose sequences are in serial order is accepted as a whole, across any number of wrap-arounds |
| `DatapathRuns.TwoOthersSuffice` | projects/network-verification-lab/src/datapath.cpp:129-148 | and two can be enough: a run of four datagrams in which the same sequence is accepted twice |
| `DatapathRuns.SessionsIndependent` | projects/network-verification-lab/src/datapath.cpp:130-143 | acceptance depends on the session's own history, for a new one on room in the table |
| `DatapathRuns.OthersUntouched` | projects/network-verification-lab/src/datapath.cpp:144 | and leaves every other session's history alone |
| `RingBuffer.RingBuffer.Init` | realtime/ring_buffer.c:12-32 | refused exactly without slots, without item bytes, when the size exceeds a machine word, or when locks fail; otherwise the empty queue |
| `RingBuffer.RingBuffer.Push` | realtime/ring_buffer.c:40-61 | the array, cursors and counters represent the queue after the push, in both modes |
| `RingBuffer.RingBuffer.Pop` | realtime/ring_buffer.c:63-75 | the oldest item leaves, or there was none |
| `RingBuffer.RingBuffer.WaitPop` | realtime/ring_buffer.c:87-116 | the first item found on waking, a failure, or with a deadline its expiry, whatever other threads push and pop meanwhile; a wake-up without an item waits on |
| `RingBuffer.WaitExact` | realtime/ring_buffer.c:92-116 | the wait goes on exactly while the queue is empty and wake-ups are signals; an expired deadline and a failed wait end it differently, and only an item found is removed |
| `RingQueue.AttemptsConserved` | realtime/ring_buffer.c:40-75 | over every run pushes = pops + count + dropped |
| `RingQueue.HighWaterIsPeak` | realtime/ring_buffer.c:57 | high_water is the largest count ever reached |
| `RingQueue.FifoOrder` | realtime/ring_buffer.c:40-75 | what left, taken or overwritten, followed by what is held, is what went in |
| `RingQueue.RejectingLosesNothing` | realtime/ring_buffer.c:43-48 | in reject mode pops return what went in, in order |
| `RingQueue.OverwritingKeepsNewest` | realtime/ring_buffer.c:49-56 | in overwrite mode the ring holds the newest items pushed |
| `LittleEndian.PutLoop` | firmware/image.c:37 | the loop writes the low bytes of the number |
| `LittleEndian.GetLoop` | firmware/image.c:40 | the loop reads the number back |
| `LittleEndian.GetPut` | firmware/image.c:35-40 | numbers survive, for every width |
| `LittleEndian.PutGet` | firmware/image.c:35-40 | bytes survive, for every width |
| `Firmware.HeaderRoundTrip` | firmware/image.c:68-94 | every header survives serialising and parsing |
| `Firmware.ReservedIgnored` | firmware/image.c:83-94 | a parsed header serialises back exactly if its reserved bytes are zero |
| `FirmwareBytes.HeaderExact` | firmware/image.c:83-94 | forty bytes are a header exactly if magic number, format and header size are right, and then the fields are the little-endian numbers at their offsets |
| `FirmwareBytes.SerializedBytes` | firmware/image.c:68-81 | the packer writes the fields at these offsets and zeros behind them |
| `Firmware.CopyAndCrc` | firmware/image.c:96-119 | for any read and write chunking, the CRC and a copy of exactly the expected bytes, or a wrong length or failed call |
| `Firmware.Pack` | firmware/image.c:121-144 | the output is the header over the payload followed by the payload; otherwise a wrong size, a failed call, or a header write that was not whole is to blame |
| `Firmware.VerifyFile` | firmware/image.c:180-195 | the checks of the specification for any read chunking; a failed read can only hide validity |
| `Firmware.ValidExact` | firmware/image.c:186-190 | valid exactly if size and checksum are the stated ones and the size is at most 64 MiB |
| `FirmwareBytes.ValidBytes` | firmware/image.c:180-195 | a file is valid exactly if its bytes are a header followed by as many bytes as it says, at most 64 MiB, with the CRC it says |
| `Firmware.PackedIsValid` | firmware/image.c:121-195 | whatever is packed verifies with its version and architecture |
| `Firmware.PackThenVerify` | firmware/image.c:96-195 | what is packed verifies, for any payload up to 64 MiB and any chunking of reads and writes; without failed calls only a header write that is not whole stops packing |
| `Firmware.DamagedImageInvalid` | firmware/image.c:180-195 | a burst of up to four bytes in a valid image makes it invalid |
| `FirmwarePolicy.CompareIsOrder` | firmware/image.c:197-202 | the comparison is a total order on versions |
| `FirmwareBytes.AcceptableBytes` | firmware/image.c:197-211 | a file may be installed exactly if it is valid and, unless downgrades are allowed, the version in its bytes is newer, by major, minor and patch number in this order |
| `FirmwarePolicy.CheckUpdate` | firmware/image.c:204-219 | accepted exactly for a valid image that is newer, or any valid one with downgrades allowed |
| `FirmwarePolicy.Upgrade` | firmware/image.c:204-211 | without downgrades a file installs a version exactly if it is acceptable, and the version is newer |
| `FirmwarePolicy.VersionsIncrease` | firmware/image.c:204-219 | over every update run without downgrades the installed versions strictly increase |
| `FirmwarePolicy.DowngradesPass` | firmware/image.c:210-211 | with downgrades allowed every packed image passes, without exactly the newer ones |

## Left out

- Null pointer arguments: the model's values are never null, so the early returns for null are not modelled.
- Weak memory: interleavings are sequentially consistent; race freedom is what makes the acquire and release accesses sufficient.
- The 64-bit width of the NIC and datapath counters, and of mapped_bytes: counters are unbounded.
- Access granularity in the NIC: copying a frame with its length and error flag is one step of the transition system, and the stores to the head and tail mirrors ride along with the cursor they copy.
- Allocator.Allocator.Malloc: requires a request whose roundings do not exceed 64 bits, as the source silently assumes; HeapRuns.SizesExact says exactly which those are.
- Allocator.Allocator.Free: requires null or a live pointer; double frees and foreign pointers are misuse. The magic number is modelled and always found intact.
- The allocator's mutex: each call is one atomic operation.
- Real mmap, munmap, mprotect, sysconf, read and write: modelled by contracts with arguments that decide which calls fail. The page size is any positive number (a multiple of 16 for the allocator), and masking with it is taking the multiple below.
- Loader with MAP_FIXED, which replaces existing mappings on purpose; a write to a read-only or missing page; ELF header extraction from raw bytes and loader_can_execute.
- 64-bit wrap-around in the loader and in elf_vaddr_to_offset: addresses and file offsets are unbounded numbers.
- The order of the loader's error messages, and all message texts.
- Shell: memory exhaustion, which ends the process, and the saved copy of the source line. A line is the text before its terminating NUL.
- Locales other than C for white space in the shell.
- The text of the statistics reply: an arbitrary function of the counters and the number of sessions. The Python field ranges that struct.pack checks are types here.
- zlib.crc32 in the peer is taken to be the same CRC-32.
- RingBuffer.RingBuffer.Push: slots hold whole items; the offset arithmetic over item_size is not modelled, and the mutex makes each call atomic. deadline_from_now computes wall-clock time and is left to the wake-up argument of WaitPop.
- Firmware.Pack: the two fixed-size header writes may fail or be short, which is reported; opening files and fstat are arguments. version_parse and arch_parse are text handling.
- The target simulator, event loop, tracer, server, serial link, job control, and the other projects' HTTP and data plumbing: process control, signals, sockets and terminals, or formatting and storage around them.
