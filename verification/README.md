# A verified model of a small MPI for bare-metal Raspberry Pis

The repository boots up to four Raspberry Pis from one laptop, links them by bit-banged serial lines, and runs SPMD
programs over a few MPI-like collectives. This project models the parts of it with the most state and proves what
they promise.

| file | what it models |
|---|---|
| `Fmpi.dfy` | the collectives as a labelled transition system: one program counter for the root and one for each worker, a channel without a buffer, a clock in milliseconds; next to it the atomic collectives |
| `FmpiSafety.dfy`, `FmpiProgress.dfy`, `FmpiLiveness.dfy` | every run agrees with the atomic collectives; nothing is stuck; every fair run finishes |
| `FmpiStandard.dfy`, `FmpiBarrier.dfy` | exactly when the collectives are those of MPI-3.1 |
| `FmpiBuffers.dfy` | the loops over ranks and bytes that fill the receive buffers in place |
| `Spmd.dfy`, `Blocks.dfy`, `Words.dfy`, `Bytes.dfy`, `Modular.dfy` | facts shared by the programs: blocks of a buffer, words as bytes, positions on a ring |
| `Mergesort.dfy`, `SortProgram.dfy` | the in-place merge sort, and the distributed sort |
| `Matmul.dfy`, `MatmulProgram.dfy` | wrapping matrix multiplication, and the distributed one |
| `Render.dfy`, `RenderProgram.dfy` | the renderer, and the distributed one |
| `Echo.dfy`, `Goodbye.dfy` | the laptop's loop that reassembles the image from chunks and stops at a goodbye; the search for the goodbye and the cleaning of text |
| `Async.dfy`, `AsyncLiveness.dfy` | remote memory: PUT and GET commands served by an interrupt handler; exactly when they complete in every fair run |
| `Spsc.dfy`, `Ring.dfy` | the circular queue: lock-free use by one producer and one consumer, and its bulk operations |
| `Uart.dfy` | the software UART: the pin as a level in every cycle, wrapping counters on both machines, clocks that drift apart, operations of varying length |
| `Crc32.dfy` | the table-driven checksum against the polynomial |
| `Boot.dfy`, `BootPi.dfy` | the two halves of the boot protocol, as loops over ports and as functions of the bytes read |
| `BootProtocol.dfy`, `BootSync.dfy`, `BootGarbage.dfy` | both halves together; finding the word boundary in garbage; both halves together over a line with garbage in front |
| `BootWire.dfy` | what each half demands of arbitrary bytes, and what it withholds |
| `Random.dfy`, `RandomStream.dfy` | the additive-feedback generator; what it returns after seeding, in numbers |
| `RandomSwitch.dfy`, `RandomInit.dfy` | one generator record switched among state arrays; initialising arrays while others are in use |

The protocols are state machines over single channel operations, and their theorems are about every state of every
run under every schedule. The code that rewrites memory is modelled by methods on arrays and classes that are proved
against functions, and the lemmas are about those functions.

A few results say exactly when the code does what it is for:

* The handshake of the collectives loses nothing if and only if a worker's reply is out within `TIMEOUT_MS` of the
  SYNC (`FmpiSafety.NothingLostIff`). The remote-memory handshake needs no such bound to be safe: a reply that comes too
  late makes the handler take nine SYNC bytes for a packet, and SYNC is not a command (`Async.RefinesWordMap`). But its
  commands complete in every fair run if and only if the same bound holds (`AsyncLiveness.FairRunsCompleteIff`).
* Scatter and gather are those of MPI-3.1 if and only if the root is rank 0 or the blocks are empty, because the root
  always copies its own block at offset 0 (`FmpiStandard.ScatterConformsIff`, `FmpiStandard.GatherConformsIff`).
* The barrier is that of MPI-3.1 if and only if there is at most one worker (`FmpiBarrier.BarrierConformsIff`). The GO
  phase is commented out (libpi/src/fmpi.c:44-50), and with two workers the first leaves before the second has entered
  (`FmpiBarrier.LeavesEarly`).
* A boot of a program that does not wrap around the address space can succeed if and only if the program does not
  collide with the bootloader and its checksum is not the PRINT_STRING opcode, since the Unix side reads the echoed
  checksum as an opcode (`BootProtocol.BootSucceedsIff`). `BootProtocol.UnluckyProgram` is a program with that checksum.
* The collision test finds the overlap with the bootloader if and only if the range does not wrap or both of its
  comparisons agree (`BootProtocol.CollisionTestIff`).
* The laptop searches every chunk it reads for "DONE!!!" and a newline, those of the image too
  (libunix/pi-echo.c:145-149), and stops reading when it finds it. Under a given cutting of the stream it stores the
  whole image if and only if no chunk that ends before the image does looks like that to the search (`Echo.WholeIff`);
  under every cutting, if and only if the string does not stand in the image before its last byte
  (`Echo.EveryCuttingIff`). `RenderProgram.GoodbyePicture` is a scene whose picture contains it.
* The search for that string finds an occurrence if and only if no NUL stands before it and it stands directly behind an
  even number of begun and broken off exit strings (`Goodbye.FoundIff`), since the byte that breaks one off is used up:
  behind one more "D" it is missed. NULs do not matter in text, which is cleaned first (`Goodbye.TextFoundIff`).
* The Pi's half of the boot succeeds on a stream of bytes if and only if both opcodes, a range that does not collide, all
  of the code and its checksum are there (`BootWire.PiSucceedsIff`).
* The queue's count is right for all indices if and only if the size divides 2^32 (`Ring.CntRightIff`).
* The seeding loop leaves no zero word in the table if and only if the seed is not a multiple of 2^31 - 1
  (`Random.NoZeroWordIff`).

Where the code and its comments disagree the model follows the code.

* The comment on `initstate_r` says that it saves the state in use before "so that it doesn't matter when initstate is
  called" (libpi/libc/random.c:257-258). It does not. An array left in this way resumes where it was if and only if its
  first word already says where its pointers are (`RandomInit.ResumesIff`); `RandomInit.DrawThenInit` is an input on
  which a draw is forgotten.
* The comment on the collision test announces BOOT_ERROR (src/bootloader/2-pi-side/get-code.h:176). The Pi says BOOT_ERROR
  if and only if there is no collision and the checksum is wrong; on a collision it panics in plain text
  (`BootProtocol.BootErrorIff`), which the Unix side takes for opcodes that it does not know, and waits for ever
  (`BootProtocol.CollisionHangs`).

## Model

| member | source | states |
|---|---|---|
| FmpiSafety.RunAgreesWithAtomic | libpi/src/fmpi.c:34-163 | in every reachable state of any program, under any interleaving, what each rank has received from the collectives it has completed is what the collectives give it when each is one indivisible step |
| FmpiSafety.NoByteLostOrConfused | libpi/src/fmpi.c:8-65 | every data byte, SEND signal and reply is taken by the peer, in the same collective and at the position it was sent for; a SYNC is taken only by a worker waiting for one |
| FmpiSafety.NothingLostIff | libpi/include/fmpi.h:21-22 | nothing is lost in any run of any program if and only if DELAY_MS plus the worker's jitter is at most TIMEOUT_MS |
| FmpiSafety.RanksStayTogether | libpi/src/fmpi.c:34-167 | root and workers are within one collective of each other, the root leaves a handshake only after every worker has entered and answered it, and a worker with gathered data to send is the one whose next byte the root is reading |
| FmpiSafety.Reachable | libpi/src/fmpi.c:34-167 | the invariant holds in every state of every run |
| FmpiSafety.StepKeeps | libpi/src/fmpi.c:34-167 | every enabled step of the root, a worker, the clock or the timeout keeps the invariant |
| FmpiSafety.TimeoutKeeps | libpi/src/fmpi.c:40-42 | the root retransmits only to a worker that has not taken its SYNC |
| FmpiSafety.RootSyncKeeps | libpi/src/fmpi.c:37-43 | a SYNC is taken exactly when the worker is at the head of its handshake |
| FmpiSafety.WorkerReplyKeeps | libpi/src/fmpi.c:51-55 | a reply finds the root listening for that worker, before the deadline |
| FmpiSafety.RootDataKeeps | libpi/src/fmpi.c:88-130 | each byte of a broadcast or scatter is taken by its worker at the same offset of the same collective |
| FmpiSafety.RootSignalKeeps | libpi/src/fmpi.c:141-157 | the SEND signal is always taken |
| FmpiSafety.WorkerDataKeeps | libpi/src/fmpi.c:140-162 | each gathered byte is taken at its offset, and only the worker being read is sending |
| FmpiSafety.RootReturnsResult | libpi/src/fmpi.c:86-163 | the root returns from a collective with the result of the atomic one |
| FmpiProgress.NeverStuck | libpi/src/fmpi.c:34-163 | in every reachable state with a rank unfinished some step is enabled that decreases a lexicographic measure, despite the unbounded retransmission |
| FmpiProgress.TickDecreases | libpi/src/fmpi.c:54-54 | waiting brings a deadline or the end of a delay closer |
| FmpiLiveness.FairRunsFinish | libpi/src/fmpi.c:34-163 | every endless run in which neither time nor any rank that can take a step is passed over for ever completes the program, with the results of the atomic collectives |
| FmpiLiveness.StepHelps | libpi/src/fmpi.c:40-42 | every step does some work, shortens the wait for the party whose turn helps, or is not that party's; a lost SYNC is never all that could help |
| FmpiProgress.EveryRunCanComplete | libpi/src/fmpi.c:34-163 | from every reachable state some schedule completes the program with the results of the atomic collectives |
| FmpiStandard.ScatterConformsIff | libpi/src/fmpi.c:106-130 | scatter hands rank i block i (section 5.6 of MPI-3.1) for every program if and only if the root is 0 or the blocks are empty |
| FmpiStandard.GatherConformsIff | libpi/src/fmpi.c:132-163 | gather concatenates in rank order (section 5.5 of MPI-3.1) for every program if and only if the root is 0 or the blocks are empty |
| FmpiStandard.GatherMeets | libpi/src/fmpi.c:132-152 | with root 0 the gathered buffer is the blocks of all ranks in rank order |
| FmpiBarrier.BarrierConformsIff | libpi/src/fmpi.c:34-65 | in every run no rank returns from a barrier before every rank has entered it (section 5.3 of MPI-3.1), for every program with this size and root, if and only if there are at most two ranks |
| FmpiBarrier.LeavesEarly | libpi/src/fmpi.c:44-50 | for three ranks or more, a run in which the first worker has left the barrier and the second has not entered it |
| FmpiBarrier.RootHoldsBack | libpi/src/fmpi.c:165-167 | for any number of ranks the root leaves a collective only after every worker has entered it, and a worker only after the root has |
| FmpiBuffers.Send | libpi/src/fmpi.c:8-12 | puts exactly the bytes of the buffer on the line, in order |
| FmpiBuffers.Recv | libpi/src/fmpi.c:14-19 | fills its stretch of the buffer with the bytes of the line and changes nothing else |
| FmpiBuffers.BcastRoot | libpi/src/fmpi.c:88-97 | every line but the root's own carries the whole buffer |
| FmpiBuffers.ScatterRoot | libpi/src/fmpi.c:113-123 | line i carries block i, and the root keeps block 0 |
| FmpiBuffers.GatherRoot | libpi/src/fmpi.c:140-152 | the receive buffer holds line i at block i, the root's own data at block 0, and at the root's own block what was there |
| FmpiBuffers.ScatterLinesAreResults | libpi/src/fmpi.c:113-123 | the loop's blocks are what the atomic scatter hands out |
| FmpiBuffers.GatherBufferIsResult | libpi/src/fmpi.c:140-152 | the loop's buffer is what the atomic gather hands to the root |
| Spmd.RootReceives | libpi/src/fmpi.c:132-163 | in every run, what the root got from its k-th collective is the atomic result |
| Spmd.GatheredBlocks | libpi/src/fmpi.c:140-152 | with root 0, block i of the gathered buffer is what rank i passed to the gather |
| Mergesort.MergeInPlace | src/tests/mergesort.c:6-22 | merges two adjacent stretches of the array in place and changes nothing else |
| Mergesort.MergeSort | src/tests/mergesort.c:25-32 | sorts one stretch of the array in place and changes nothing else |
| Mergesort.MergeSorts | src/tests/mergesort.c:16-21 | merging sorted sequences gives a sorted one |
| Mergesort.MergePermutes | src/tests/mergesort.c:16-21 | merging loses and invents nothing |
| Mergesort.MergeSortedSorts | src/tests/mergesort.c:25-32 | what the recursive sort computes is sorted and a permutation |
| SortProgram.GatheredSorted | src/tests/mergesort.c:72-81 | after scatter, local sort and gather, each block of the root's array is its original block sorted |
| SortProgram.RootMerges | src/tests/mergesort.c:86-89 | the root's loop merges block after block, in place |
| SortProgram.PrefixMergeSorts | src/tests/mergesort.c:86-89 | merging sorted blocks one after the other sorts the whole, for any number and size of blocks |
| SortProgram.EveryRunSorts | src/tests/mergesort.c:65-89 | for every array of size * n elements and every schedule, the root ends with a sorted permutation of it |
| Matmul.MultiplyRow | src/tests/1-matmul/matmul-hard.c:58-72 | writes one row of the product and nothing else |
| Matmul.Multiply | src/tests/1-matmul/matmul-hard.c:32-42 | computes the product of all rows; a rank's loop over its own rows is the same |
| Matmul.ProductRow | src/tests/1-matmul/matmul-hard.c:34-40 | row i of the product is row i of A times B |
| Matmul.ProductIs | src/tests/1-matmul/matmul-hard.c:34-40 | every element of the product is the sum of products over the integers, modulo 2^32 |
| MatmulProgram.InputsReceived | src/tests/1-matmul/matmul-hard.c:96-101 | every rank receives B and its own rows of A |
| MatmulProgram.OutputPassed | src/tests/1-matmul/matmul-hard.c:107-114 | every rank passes the product of its rows to the gather |
| MatmulProgram.ProductBlock | src/tests/1-matmul/matmul-hard.c:107-109 | the rows of one rank are a block of the sequential product |
| MatmulProgram.EveryRunMultiplies | src/tests/1-matmul/matmul-hard.c:93-115 | for every A and B and every schedule, the gathered matrix is the sequential product, in 32-bit arithmetic |
| MatmulProgram.ExpectedResult | src/tests/1-matmul/matmul-hard.c:14-30 | for the generated matrices the product is the expected result that the root checks |
| Words.RoundTrip | src/tests/1-matmul/matmul-hard.c:96-101 | words survive the byte-wise collectives |
| Words.EncodedAt | src/tests/1-matmul/matmul-hard.c:96-101 | a word is sent as four bytes, the lowest first |
| Render.RenderPixel | src/tests/2-render/render.c:69-75 | the loop over the circles shades one pixel and nothing else |
| Render.RenderRows | src/tests/2-render/render.c:64-78 | a rank's rows of the picture; with rank 0 and all rows, the sequential renderer of render-ans.c |
| Render.PictureAt | src/tests/2-render/render-ans.c:31-45 | where each byte of the picture is: row by row, pixel by pixel, red, green and blue |
| Render.PaintedOver | src/tests/2-render/render-ans.c:36-42 | the last circle that covers a pixel gives half of its colour, and half of what was there remains |
| Render.Uncovered | src/tests/2-render/render-ans.c:36-42 | a pixel that no circle covers stays black |
| Render.TwoCircles | src/tests/2-render/render-ans.c:36-42 | under two circles a pixel has half of the upper colour and a quarter of the lower |
| Render.InsideIsDistance | src/tests/2-render/render-ans.c:27-29 | for image coordinates the 32-bit test is the distance test, without overflow |
| RenderProgram.SceneReceived | src/tests/2-render/render.c:133-139 | after the six broadcasts every rank has the scene |
| RenderProgram.PictureBlock | src/tests/2-render/render-ans.c:31-45 | the rows of one rank are a block of the sequential image |
| RenderProgram.AtomicRenders | src/tests/2-render/render.c:141-148 | the gathered image is the sequential image |
| RenderProgram.EveryRunRenders | src/tests/2-render/render.c:133-148 | under every schedule |
| RenderProgram.SendBackToLaptop | src/tests/2-render/render.c:34-47 | the bytes go out in the order they have in memory |
| RenderProgram.ShowOnLaptop | src/tests/2-render/render.c:147-155 | for the gathered image of any run, streamed and cut into any chunks: the laptop stores a beginning of the sequential image; all of it if and only if no chunk that ends before the image looks like a goodbye; and none does if the exit string is not in the image before its last byte |
| RenderProgram.GoodbyePicture | libunix/pi-echo.c:145-149 | the condition is needed: a scene of three circles whose picture, from three rows on and whatever text follows, is not stored whole under some cutting |
| Echo.Laptop.UpdatePixel | libunix/pi-echo.c:49-58 | the three indices count one byte on, and say when the image is complete |
| Echo.Laptop.UpdateImage | libunix/pi-echo.c:60-68 | a chunk goes where the last one ended, and what is beyond the image is dropped |
| Goodbye.PiDone | libunix/pi-echo.c:17-33 | the search of a chunk succeeds if and only if an exit string stands in it with no NUL before it and an even number of begun and broken off ones directly before it |
| Goodbye.FoundIff | libunix/pi-echo.c:22-31 | the same of the search as a function, in which a byte that does not fit is used up |
| Goodbye.GoodbyeFound | libunix/pi-echo.c:24-27 | an exit string behind any text with no NUL and no D in it is found, whatever follows |
| Goodbye.TextFoundIff | libunix/pi-echo.c:141-145 | in a chunk of text, which is cleaned first, one is found if and only if it stands behind an even number of broken ones: NULs and other unprintable bytes do not hide it |
| Goodbye.CleanKeepsIff | libunix/pi-echo.c:42-44 | cleaning leaves a chunk as it is if and only if all of it is printable or white space other than a carriage return |
| Goodbye.ExitIsKept | libunix/pi-echo.c:42-44 | the exit string survives the cleaning |
| Goodbye.ExitIsDone | libunix/pi-echo.c:22-27 | the exit string alone is found; behind one more D it is missed |
| Goodbye.DoneOccurs | libunix/pi-echo.c:17-33 | what the search finds stands in the chunk |
| Goodbye.RemoveNonprint | libunix/pi-echo.c:39-46 | every byte that is neither printable nor white space, and the carriage return, becomes a space, in place; every other byte is kept |
| Echo.Laptop.Take | libunix/pi-echo.c:136-149 | a chunk goes into the image while it is incomplete, uncleaned, and is cleaned and printed from then on; either way it is searched for the goodbye |
| Echo.Laptop.Receive | libunix/pi-echo.c:104-159 | for any chunks: the loop stops behind the first chunk in which the search succeeds; what it has read up to the size of the image is stored, the rest of the image is as before, and the chunks from the one after the image on are printed |
| Echo.StopsAtGoodbye | libunix/pi-echo.c:139-149 | behind the image nothing is read after a chunk of text that says goodbye, and reading stops there only for such a chunk |
| Echo.NothingAfterGoodbye | libunix/pi-echo.c:139-149 | for any cutting in which a chunk behind the image is text with no D, the exit string and anything: nothing is read after it |
| Echo.WholeIff | libunix/pi-echo.c:107-149 | for every cutting of a stream that is long enough, the whole image is read if and only if the search succeeds in no chunk that ends before the image |
| Echo.EveryCuttingIff | libunix/pi-echo.c:107-149 | the whole image is read under every cutting into reads of 1 to 4095 bytes, if and only if the exit string does not stand in the image before its last byte |
| Echo.SecondChunkIgnored | libunix/pi-echo.c:145-149 | of the two chunks "DONE!!!" with a newline, and one byte, only the first is read |
| Echo.Reassemble | libunix/pi-echo.c:104-159 | a streamed image, cut into any chunks and followed by any text: a beginning of it is stored as it was sent; all of it if and only if no chunk that ends before the image looks like a goodbye; and none does if the exit string is not in the image before its last byte |
| Async.RefinesWordMap | libpi/src/fmpi-async.c:53-98 | in every reachable state, whatever the timing and whichever interrupts come too late to wake the handler: there is one result for each get that is done, in order, and it is the value of the last put to its address before it, or the original contents if there was none; and when both sides rest the remote memory is that of the word map |
| Async.ReturnsAnswered | libpi/src/fmpi-async.c:79-98 | the same of the results of the word map: their number is that of the gets, and each is the last value put to its address |
| Async.SomeCase | libpi/src/test-interrupts.c:76-82 | for every get there is a last put to its address before it, or none at all |
| Async.ReplyLayout | libpi/src/fmpi-async.c:95-97 | in every reachable state in which a get has read its four bytes, they are the value with the lowest byte first |
| Async.PacketLayout | libpi/include/fmpi-async.h:23-30 | the packet is the command byte, then address and data with the highest byte first |
| Async.LastPutWins | libpi/src/test-interrupts.c:76-82 | a get of the map returns the value of the last put to its address |
| Async.NoPutKeeps | libpi/src/test-interrupts.c:76-82 | and the original contents if there was none |
| Async.PacketRoundTrip | libpi/include/fmpi-async.h:24-28 | the handler reads back command, address and data of the big-endian packet |
| Async.StepKeeps | libpi/src/test-interrupts.c:56-88 | every step of the client, the handler, the clock and the timeouts keeps the invariant |
| Async.NeverStuck | libpi/src/fmpi-async.c:53-60 | until the last command is done some step is enabled that decreases a measure, even after a lost reply |
| Async.CanComplete | libpi/src/fmpi-async.c:53-98 | from every reachable state some schedule completes all commands, every get with the value of the last put to its address |
| AsyncLiveness.FairRunsComplete | libpi/src/fmpi-async.c:53-98 | when DELAY_MS plus the jitter of the reply is at most TIMEOUT_MS, every endless run completes all commands, every get with the value of the last put to its address, if no party that can act is passed over for ever and the handler is not for ever woken too late |
| AsyncLiveness.LateForEver | libpi/src/fmpi-async.c:53-68 | otherwise, for any memory and any commands, a fair run in which the client gives up just before each reply, the handler reads nine SYNC bytes as a packet, and the first command is never done |
| AsyncLiveness.FairRunsCompleteIff | libpi/src/fmpi-async.c:53-68 | so every fair run completes if and only if DELAY_MS plus the jitter is at most TIMEOUT_MS |
| AsyncLiveness.StepHelps | libpi/src/test-interrupts.c:56-88 | every step brings the end closer, or changes nothing that matters and is not that of the party everybody waits for, or is a SYNC that does not wake the handler in time and costs nothing done |
| Spsc.FifoUnderInterleaving | libpi/libc/circular-T.h:55-93 | with producer and consumer interleaved at single loads and stores, for any N >= 2, pops are a prefix of pushes, pushed = popped + contents, and at most N - 1 elements are held |
| Spsc.StoresMissLiveSlots | libpi/libc/circular-T.h:82-93 | no live slot is overwritten |
| Spsc.FailuresAreHonest | libpi/libc/circular-T.h:40-47 | a push fails exactly when the queue is full at its test, a pop exactly when it was empty as head was loaded |
| Spsc.FullIff | libpi/libc/circular-T.h:44-47 | the test for full is exact at every reachable pair of indices |
| Spsc.Reachable | libpi/libc/circular-T.h:55-93 | the invariant holds in every state of every run |
| Ring.CntRightIff | libpi/libc/circular-T.h:49-52 | (head - tail) % N counts the elements for all indices if and only if N divides 2^32 |
| Ring.Queue.PopNonblock | libpi/libc/circular.h:73-85 | takes the front element, or fails on an empty queue and changes nothing |
| Ring.Queue.Push | libpi/libc/circular.h:101-113 | appends, or fails on a full queue and changes nothing |
| Ring.Queue.Peek | libpi/libc/circular.h:116-123 | the front element, left in place, or nothing on an empty queue |
| Ring.Queue.Get | libpi/libc/circular-T.h:96-101 | the i-th element from the front, if there is one |
| Ring.Queue.PopNNonblock | libpi/libc/circular.h:126-138 | the first n elements in order, or nothing at all |
| Ring.Queue.PeekN | libpi/libc/circular.h:142-156 | returns the first n elements and changes nothing |
| Ring.Queue.PushN | libpi/libc/circular.h:160-174 | all or nothing |
| Ring.Queue.PushDropping | libpi/libc/circular-T.h:103-110 | keeps the last N - 1 of the old contents and the new element |
| Ring.DroppingKeepsLast | libpi/libc/circular-T.h:103-110 | repeated dropping pushes keep the last N - 1 elements |
| Ring.Queue.PushAllDropping | libpi/libc/circular-T.h:103-110 | after pushing any sequence in this way the queue holds the last N - 1 elements of its old contents and the sequence |
| Ring.Push32Pop32 | libpi/libc/circular.h:180-186 | a word pushed behind any contents is popped unchanged after them |
| Uart.Transfer | libpi/src/fmpi.c:8-19 | for every byte string, every starting value of the counters, any duration of the operations, and a receiver whose clock gains or loses a bounded drift in the time of one byte: if each sample trails the schedule on which its byte was sent by at least the edge jitter and by less than one bit time, the receive loop returns exactly what the send loop sent; and all samples do if the latest edge, two counter reads and one pin write late, is by at least the drift not later than the earliest falling edge plus the quickest step from it to the counter, and one pin write, five receiver operations and the drift fit into a bit; the line, the times of the frames and the readings are those of the two loops |
| Uart.TrailingDecodes | libpi/src/sw-uart.c:63-68 | eight samples that trail the schedule of a frame give its byte, whenever they are taken |
| Uart.BitsInOrder | libpi/src/sw-uart.c:28-36 | the data bits of a byte on the line are its binary digits, the lowest first |
| Uart.KeepsUpTrails | libpi/src/sw-uart.c:70-71 | the stop bit re-frames each byte: with a receiver that keeps up, its clock drifting, every sample of every byte trails its schedule by less than one bit, however many bytes there are and however far the clocks have drifted apart by then |
| Uart.FastClock | libpi/src/sw-uart.c:51-74 | a clock that is fast by one cycle in q has a bounded drift within a byte and an unbounded one over all |
| Uart.Sender.Put8 | libpi/src/sw-uart.c:21-46 | the pin shows the frame of the byte on a schedule of ten bit times, each edge late by less than the jitter |
| Uart.Sender.Send | libpi/src/fmpi.c:8-12 | the frames of all bytes follow each other, with the line idle in between |
| Uart.Receiver.Get8Timeout | libpi/src/sw-uart.c:51-74 | on any line, whatever its level on entry: the value of the eight levels sampled on the schedule that starts when the pin is seen low, or -1 after the timeout with no low stretch of two operations missed |
| Uart.Receiver.WaitUntilLow | libpi/include/cycle-util.h:65-77 | on any line: returns on a low pin within two operations of the first low stretch as long as that, or reports a timeout only after the full time on its own clock |
| Uart.Receiver.Recv | libpi/src/fmpi.c:14-19 | stores one reading after the other, each begun where the one before ended, with 255 for a timeout |
| Uart.ElapsedAcrossWrap | libpi/include/cycle-util.h:11-18 | the difference of two readings is the elapsed time across a wrap of the 32-bit counter |
| Uart.TimerElapsed | libpi/include/cycle-util.h:69-75 | a timeout read off the wrapping microsecond timer has really passed |
| Crc32.Crc32Inc | src/bootloader/2-pi-side/boot-crc32.h:57-64 | the loop computes the bit-at-a-time checksum of section 8 of RFC 1952 |
| Crc32.TableIsBitwise | src/bootloader/2-pi-side/boot-crc32.h:11-55 | every table entry is its index shifted eight times through the polynomial |
| Crc32.TableStepIsBitwise | src/bootloader/2-pi-side/boot-crc32.h:62-62 | one table step is eight bit steps |
| Crc32.ChecksumSplits | src/bootloader/2-pi-side/boot-crc32.h:57-68 | continuing over a second buffer gives the checksum of the whole |
| Crc32.RunInjective | src/bootloader/2-pi-side/boot-crc32.h:61-62 | the register after given bytes determines the register before |
| Crc32.WindowInjective | src/bootloader/2-pi-side/boot-crc32.h:61-62 | from a given register, different strings of at most four bytes lead to different registers |
| Crc32.BurstDetected | src/bootloader/2-pi-side/boot-crc32.h:57-68 | a change inside four consecutive bytes changes the checksum |
| Boot.ReadOp | src/bootloader/1-unix-side/put-code.c:118-145 | the next opcode that is not a print message, with all messages before it consumed |
| Boot.WaitForStart | src/bootloader/1-unix-side/put-code.c:211-215 | drops one byte after every unwanted opcode until GET_PROG_INFO |
| Boot.SimpleBoot | src/bootloader/1-unix-side/put-code.c:190-262 | what the Unix side sends and how far it gets, for every input |
| BootPi.Pi.Putk | src/bootloader/2-pi-side/get-code.h:71-82 | opcode, length and text |
| BootPi.Pi.WaitForData | src/bootloader/2-pi-side/get-code.h:143-149 | GET_PROG_INFO once and again after every timeout |
| BootPi.Pi.GetCode | src/bootloader/2-pi-side/get-code.h:154-243 | what the Pi sends, panics included, stores and reports, for every input |
| BootProtocol.Reachable | src/bootloader/2-pi-side/get-code.h:154-243 | in every state of every run the two streams are prefixes of the two transcripts |
| BootProtocol.BootSafeAndLive | src/bootloader/1-unix-side/put-code.c:190-262 | for a program that neither wraps nor collides, with any number of repeated GET_PROG_INFO words: neither side fails, the bootloader's memory is unchanged in every reachable state, one side can go on until both are done, and then the program is at ARMBASE and all other memory is unchanged |
| BootProtocol.LoaderUntouched | src/bootloader/2-pi-side/get-code.h:192-217 | whatever bytes the Pi reads, it writes nothing over its bootloader, if the range it is told does not wrap |
| BootProtocol.CollisionTestIff | src/bootloader/2-pi-side/get-code.h:192-196 | the collision test is true just when some byte of the range lies in the bootloader, if and only if the range does not wrap or both comparisons agree |
| BootProtocol.BootErrorIff | src/bootloader/2-pi-side/get-code.h:176-225 | the Pi fails on a collision or a wrong checksum, and says BOOT_ERROR if and only if there is no collision and the checksum is wrong; on a collision it sends the text of its panic and reboot |
| BootProtocol.CollisionHangs | src/bootloader/2-pi-side/get-code.h:192-196 | in every reachable state of a boot that collides the Pi has written nothing and the Unix side neither fails nor succeeds; when nothing is left to read, the Pi has panicked and the Unix side has sent its four words and waits |
| BootProtocol.BootedRankAndSize | src/bootloader/1-unix-side/my-install.c:187-191 | when the boot of a program with the installer's rank and size in front is over, those two bytes are at the addresses FMPI_Init reads, the rest of the program follows, and the bootloader is unchanged |
| BootProtocol.BootSucceedsIff | src/bootloader/1-unix-side/put-code.c:237-246 | for a program that does not wrap, a boot can succeed if and only if there is no collision and the checksum is not PRINT_STRING |
| BootProtocol.UnluckyProgram | src/bootloader/1-unix-side/put-code.c:242-246 | an installed program, rank 0 of 4 and four bytes of code, whose checksum is PRINT_STRING |
| BootProtocol.StoreReadBack | src/bootloader/2-pi-side/get-code.h:214-217 | what is stored is read back |
| BootProtocol.DamageIsRejected | src/bootloader/2-pi-side/get-code.h:214-232 | code damaged inside a window of at most four bytes ends in BOOT_ERROR, never BOOT_SUCCESS |
| BootWire.PiSucceedsIff | src/bootloader/2-pi-side/get-code.h:168-243 | for every stream of bytes: the Pi succeeds if and only if it starts with PUT_PROG_INFO, an address, a size and a checksum, with no collision, and then PUT_CODE and as many bytes as the size, with that checksum; and they are then at the address |
| BootWire.PiWritesOnlyIf | src/bootloader/2-pi-side/get-code.h:168-217 | whatever it reads, the Pi writes nothing before both opcodes and a range that does not collide |
| BootWire.UnixOnlyIf | src/bootloader/1-unix-side/put-code.c:211-260 | whatever the Unix side reads: it sends its four words only after a GET_PROG_INFO, the code only after a GET_CODE and the right checksum behind it, and succeeds only on a BOOT_SUCCESS behind both |
| BootWire.CodeSentIff | src/bootloader/1-unix-side/put-code.c:242-252 | the code is sent if and only if the echoed word is the checksum of the program; otherwise the Unix side fails |
| BootWire.EchoCatchesDamage | src/bootloader/1-unix-side/put-code.c:242-246 | a checksum that was damaged on its way to the Pi comes back in the echo, and the code is withheld |
| BootWire.ErrorHangs | src/bootloader/1-unix-side/put-code.c:255-259 | after BOOT_ERROR the Unix side waits for ever, however often the Pi asks again |
| BootWire.PrintsSkippedIff | src/bootloader/1-unix-side/put-code.c:118-145 | a print message of 1 to 511 bytes is skipped, one of 512 or more ends the boot, and an empty one swallows what follows |
| BootSync.GarbageSkipped | src/bootloader/1-unix-side/put-code.c:211-215 | after any garbage with no opcode in it the loop is aligned within ceil(g / 5) + 4 opcodes |
| BootSync.MidWord | src/bootloader/1-unix-side/put-code.c:211-215 | a start in the middle of a word is aligned with the fourth opcode at the latest |
| BootSync.GarbageDoesNotMatter | src/bootloader/1-unix-side/put-code.c:200-215 | from there the boot goes as if the stream had started with whole words |
| BootGarbage.GarbledBootSucceeds | src/bootloader/1-unix-side/put-code.c:200-262 | with both sides running over a line that delivers clean garbage first: in every reachable state no side has failed, the Unix side succeeds only when the program is in place and all else unchanged, and some schedule leads there |
| BootGarbage.AlignedLooksClear | src/bootloader/1-unix-side/put-code.c:211-215 | from the word boundary on, both sides are in the same condition as in a boot without garbage |
| BootGarbage.SyncTooShort | src/bootloader/1-unix-side/put-code.c:211-215 | the loop does not leave before the last byte of the opcode it leaves on |
| Random.RefinesRecurrence | libpi/libc/random.c:151-172 | the generator of type 1 to 4 returns x[n] = x[n - deg] + x[n - sep] mod 2^32 without its lowest bit |
| Random.RandomData.RandomR | libpi/libc/random.c:140-185 | one draw from the circular table is one step of the generator, for every type, and the pointers stay sep apart and in bounds |
| RandomStream.Trinomials | libpi/libc/random.c:85-106 | the recurrences of types 1 to 4, in numbers: degree 7 and separation 3, 15 and 1, 31 and 3, 63 and 1 |
| RandomStream.Draws | libpi/libc/random.c:140-185 | any number of draws return the stream of the generator, and from result deg on each is the sum of those deg and sep before it, or one more, modulo 2^31 |
| Random.TableStep | libpi/libc/random.c:157-172 | adding in place and advancing turns the table, read from the front pointer, into the next window; the pointers never both reach the end |
| Random.SchrageIsModular | libpi/libc/random.c:218-226 | for every 32-bit word the step is multiplication by 16807 modulo 2^31 - 1, with no intermediate out of signed range |
| Random.NoZeroWordIff | libpi/libc/random.c:209-228 | the filled table has no zero word if and only if the seed is not a multiple of 2^31 - 1 |
| Random.RandomData.SrandomR | libpi/libc/random.c:195-247 | the seeded generator, with both pointers back where they started after the discarded draws |
| RandomStream.SeededStream | libpi/libc/random.c:233-240 | result n after seeding is value 11 * deg + n of the recurrence without its lowest bit: ten rounds are discarded |
| RandomStream.SeededBy | libpi/libc/random.c:195-247 | the whole seeded generator in numbers, from the powers of 16807 in the table to the results |
| RandomStream.SeedAndDraw | libpi/libc/random.c:140-247 | seeding and then drawing returns those values |
| RandomStream.FirstWordsAre | libpi/libc/random.c:213-234 | word i of the seeded table is the seed times 16807^i modulo 2^31 - 1, and the values before any draw are the table from index sep on, and around |
| RandomStream.ZeroIsOne | libpi/libc/random.c:210-212 | a seed of 0 gives the results of a seed of 1 |
| RandomStream.SeededLcg | libpi/libc/random.c:147-152 | the results of type 0 in closed form: powers of 1103515245 and a geometric sum of 12345, modulo 2^31 |
| RandomStream.SavedWordIs | libpi/libc/random.c:329-332 | the first word of a saved array is 5 times the rear index plus the type |
| Random.RandomData.InitstateR | libpi/libc/random.c:260-305 | the best type that fits is chosen, seeded and saved in the array, and the array in use before is left as it is |
| Random.RandomData.SetstateR | libpi/libc/random.c:315-356 | the array in use is saved with its generator, and the other taken up with the generator it was saved with |
| Random.SavedByWord | libpi/libc/random.c:326-329 | the word that multiplexes pointer and type restores the generator |
| Random.TypeFits | libpi/libc/random.c:268-280 | the type chosen for n bytes is the largest whose table fits |
| RandomSwitch.Run | libpi/libc/random.c:315-356 | draws and switches in any order on saved arrays return what separate generators return |
| RandomSwitch.EachArrayAlone | libpi/libc/random.c:307-356 | each array gives the stream it would give alone |
| RandomInit.InitAll | libpi/libc/random.c:260-305 | initialising any number of arrays leaves each saved with its seeded generator, and the last in use |
| RandomInit.InitAndRun | libpi/libc/random.c:260-356 | after that, draws and switches in any order give each array the stream of its own seed |
| RandomInit.ResumesIff | libpi/libc/random.c:246-258 | an array left without being saved resumes where it was, for every table, if and only if its first word says where its pointers are |
| RandomInit.Detour | libpi/libc/random.c:260-305 | leaving an array with a right first word for a newly initialised one and coming back changes nothing |
| RandomInit.DrawThenInit | libpi/libc/random.c:260-305 | seed 1, one draw, another initstate_r and back: the draw is forgotten |

## Left out

- The races inside one byte at the turn-around between a reply and the next byte: bytes are atomic in `Fmpi` and `Async`, and timing inside a byte is in `Uart`.
- Reads that wait longer than the 500 seconds of `sw_uart_get8` (libpi/include/sw-uart.h:94-102): the collectives' reads wait for ever.
- The step-by-step form of the handshake: `sync_root_last` is a state machine, not a method, since its meaning is the interleaving; the data phases are methods in `FmpiBuffers`.
- More than one outstanding byte in a line, more than `MAX_RPIS` ranks as an error, and the pins that `FMPI_Init` chooses.
- SortProgram.EveryRunSorts: the program is the one the source sketches, with the current signatures of the collectives; its fixed sizes are general ones here.
- Render.RenderRows: the sequential and the distributed renderer differ only in their first row and number of rows, so one method stands for both.
- Matmul.Multiply: likewise one method stands for `matrix_multiply` and for a rank's loop over `matmul`.
- The generation of the circles (`lcg`, `random_range`), the image files, and the timing output of the programs.
- Echo.Reassemble: text that arrives before the image would be stored as pixels, as in the source; the stream starts with the image.
- The other Pis that the laptop's loop reads in turn, what is typed to them, and the initial contents of `done` (libunix/pi-echo.c:98), which the source does not set and the model takes to be 0.
- Overlapping words at unaligned addresses in remote memory. The handler is the one for both edges, as in src/tests/0-mpi/fmpi-async.c:54; the one for falling edges alone panics on an interrupt that comes when the line is high again.
- More than two ranks for PUT and GET, whose handshake loop would wait for the same peer again.
- Blocking on an empty queue with interrupts off, on which the source panics; `cq_pop` is modelled where the queue is known not to be empty.
- Weak memory: the queue's barriers are taken to keep loads and stores in program order.
- The 8-byte receive FIFO of the hardware UART: the boot channels are reliable and unbounded.
- BootPi.Pi.WaitForData: the 300 ms timer is a parameter, the number of timeouts.
- The reboot after a failure, with which the Pi begins to ask again, the draining and tracing of `boot_check`, and the jump to the program.
- BootProtocol.BootSucceedsIff: says nothing of programs that wrap around the address space, where the collision test can let a program run over the bootloader (BootProtocol.CollisionTestIff).
- Uart.Transfer: needs a timeout some two operations and the drift short of 2^32 microseconds, since no timer reading exceeds a larger one and the loop may then not end.
- BootSync.GarbageSkipped: says nothing about garbage in which four bytes look like an opcode; a PRINT_STRING there may swallow up to 511 bytes more.
- Null pointers passed to the random functions, and state arrays that are shorter than the type saved in them.
- GPIO, coprocessor and memory-mapped registers, vector tables, Unix terminals and processes, `printk`, and the simple libc routines.
- The copies of the CRC code in libpi/libc and libunix: the same code.
