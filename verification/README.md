# The AESD character device and its socket server, verified

The AESD driver keeps the last ten newline-terminated lines written to it in a ring of allocated
blocks, and one pending partial line that every open file shares. To its readers it is one byte
string: the lines in the ring, end to end. A socket server opens the device once per connection,
writes the message it received (or seeks), and sends back what it reads. This project models both
and proves what their users depend on, for every input, every run and every interleaving.

`dafny verify dfyconfig.toml` checks the whole project.

## How it is built

| file | what it holds |
|---|---|
| `Machine.dfy` | bytes, C integer conversions of an LP64 target, error numbers, kernel limits |
| `Lines.dfy` | pieces laid end to end, lines, the reference split of a stream at newlines |
| `CommitLog.dfy` | the promise to writers: a pending string that is committed once it is a line |
| `LineRing.dfy` | the ten-slot ring as a value, adding a line, finding a byte position |
| `Driver.dfy` | the file operations as functions on values, with every fault the kernel can inject |
| `Drain.dfy` | reading until nothing is left: what comes out and how many reads it takes |
| `Runs.dfy` | runs: any files, any calls in any order, any faults |
| `Interface.dfy` | what every call answers and leaves behind, from the accepted payloads and the positions alone; the driver answers alike |
| `Witnesses.dfy` | concrete runs after which the driver does not do what its interface suggests |
| `CircularBuffer.dfy` | the ring as an object over a mutable array of pointers; the allocator |
| `Device.dfy` | the device object: `aesd_write`, `aesd_read`, `aesd_llseek`, the ioctl and the unload loop in place, proved equal to the functions of `Driver.dfy`, with block ownership |
| `DeviceRuns.dfy` | runs played on the device object: the promised answers, the same state, and how many blocks are live |
| `Conversation.dfy` | one connection served on the device object |
| `Receive.dfy` | the receive loop of a connection |
| `Server.dfy` | the threads as a state machine over mutex operations, driver calls and sends, and its invariant |
| `ServerRuns.dfy` | what every interleaving guarantees to a client |
| `SerialOrder.dfy` | every interleaving of the server is as good as serving its clients one after the other |
| `Progress.dfy` | under every fair schedule all threads finish and every client is answered |
| `ConnectionList.dfy` | the heap-linked list of connection threads |

The layers meet as follows. The device object keeps a value `model` of type `Driver.Dev`; its methods
are proved to change it exactly as `Driver.Write`, `Read`, `Seek` and `SeekTo` say. `Driver.Tracks`
ties such a value to a `CommitLog.Log`, which is a function of the list of payloads copied in.
`Runs` and `Server` step the same four functions, and `DeviceRuns.PlayRun` plays a run on the object. So a theorem about logs holds of every run, every
interleaving and the device object alike. Only one auxiliary variable is carried along, the list of
accepted payloads; history, evicted bytes and snapshots are functions of it.

## Assumptions

- The kernel passes at most 0x7ffff000 bytes to one read or write, and kmalloc refuses blocks larger
  than 214748364 bytes (the largest M with 10 * M < 2^31). It may also refuse any request.
- `int` is 32 bits, `size_t`, `ssize_t` and `loff_t` are 64 bits, conversions keep the low bits, and
  signed sums wrap, as the kernel is compiled.
- Taking the device mutex, kmalloc and the user copies can fail at any call. A failing copy may have
  written any part of its target.
- Each driver call is one atomic step, because it runs under the device mutex (SEEK_SET and SEEK_CUR
  touch only the caller's own file).
- A request of zero bytes gives a block of size 0.
- In the server, only the server's own threads use the device, and `open` succeeds.

## Where the code and its descriptions differ

The model follows the code; these are its exact results.

- `SEEK_SET` keeps the position and ignores its offset. POSIX.1-2017 `lseek` would set the position to
  the offset; the two agree exactly when the file is there already (`SeekSetReachesOffsetIff`).
- `SEEK_END` measures from the end of the data until ten lines were committed, and from the beginning
  from then on (`SeekEndIsExact`, `SeekEndReachesEndIff`).
- The ioctl counts physical slots, although `aesd_ioctl.h` calls its argument a zero-referenced write
  command. The two agree exactly while the oldest line is in slot 0: before the tenth line and
  whenever the number of lines is a multiple of ten (`SeekTargetIsIntendedIff`).
- A write commits only if its first newline is the last pending byte. One write with an earlier newline
  stops all commits for ever (`HistoryStopsAtInnerNewline`, `WedgedRunIsFrozen`), so that every client
  of the server gets the same reply from then on (`FrozenReplies`). The device is the newline split of
  its input exactly when no write has one (`SplitsStreamIff`).
- `aesd_write` and the ioctl return -ENOMEM when they take effect, exactly then, and neither ever reports
  success (`WriteReturns`, `SeekToReturns`). The server only logs it.
- A copy that fails while something is pending leaks the new block (`Device.Device.AesdWrite`), no other
  call does (`DeviceRuns.PlayRun`, `NoLeakIff`), and
  unloading frees neither leaked blocks nor the pending one (`Device.Device.Cleanup`).
- The receive buffer is never doubled (`AssembleMessage`).

## Model

| member | source | states |
|---|---|---|
| LineRing.RingRefinesHistory | aesd-char-driver/aesd-circular-buffer.c:61-80 | from the empty ring, after any number n of commits: the ring order is the last min(n,10) lines then unused slots, in_offs = n mod 10, full iff n >= 10, out_offs = in_offs when full and 0 before |
| LineRing.AddRefinesAppend | aesd-char-driver/aesd-circular-buffer.c:65-78 | one add_entry keeps that correspondence while the history grows by the line |
| LineRing.AddEvictsOldest | aesd-char-driver/aesd-circular-buffer.c:65-73 | the slot overwritten holds the oldest kept line when full and nothing before; the nine others keep their lines |
| LineRing.ContentIsLastTen | aesd-char-driver/aesd-circular-buffer.h:56-75 | the byte string a reader sees is the newest ten lines end to end |
| LineRing.SearchIsIndexing | aesd-char-driver/aesd-circular-buffer.c:35-50 | the position search, in its int and size_t arithmetic, fails exactly at or past the end and otherwise names the slot and offset of that byte of the concatenation, when sizes sum below 2^31 |
| LineRing.SearchInvertsPosition | aesd-char-driver/aesd-circular-buffer.c:38-49 | searching for the prefix length of a piece plus an offset inside it finds that piece and offset |
| CircularBuffers.CircularBuffer.constructor | aesd-char-driver/aesd-circular-buffer.c:85-88 | a new ring is the empty ring with ten NULL entries |
| CircularBuffers.CircularBuffer.AddEntry | aesd-char-driver/aesd-circular-buffer.c:61-80 | in place: the ring becomes Add of the old one, only the write slot's entry changes, and exactly its old block is freed, only when full |
| CircularBuffers.CircularBuffer.FindEntryOffset | aesd-char-driver/aesd-circular-buffer.c:29-51 | the search loop returns what Search finds, at its physical slot |
| CircularBuffers.CircularBuffer.SizeUpTo | aesd-char-driver/main.c:131-134 | the summing loop of SEEK_END and of the ioctl ends and yields, as an int, the bytes in ring order before the stop slot |
| Lines.SplitIsUnique | aesd-char-driver/main.c:102-106 | lines and a newline-free rest are recovered from their concatenation by the reference split, so there is one such split |
| Lines.SplitIsExact | aesd-char-driver/main.c:102-106 | the reference split loses no byte |
| CommitLog.CommittedAreLines | aesd-char-driver/main.c:100-106 | after any stored payloads every committed entry is a line and the pending string is not |
| CommitLog.BytesConserved | aesd-char-driver/main.c:168-203 | committed lines followed by the pending bytes are the stored payloads, byte for byte |
| CommitLog.WedgedIffInnerNewline | aesd-char-driver/main.c:52-54 | the pending string holds a newline if and only if some payload had a newline before its last byte |
| CommitLog.WedgedForever | aesd-char-driver/main.c:100-106 | from then on nothing stored is ever committed |
| CommitLog.SplitsStreamIff | aesd-char-driver/main.c:96-109 | history and pending are the newline split of the whole stream if and only if no payload has a newline before its last byte |
| CommitLog.ChunkingIndependentIff | aesd-char-driver/main.c:168-203 | a second way of cutting the same stream leaves the same history and pending exactly when it also has no such payload |
| CommitLog.HistoryStopsAtInnerNewline | aesd-char-driver/main.c:100-106 | after the first such payload the history stays the complete lines of what came before it |
| CommitLog.LinesAreCommitted | aesd-char-driver/main.c:100-106 | payloads that are lines are the history, in order |
| Driver.CommitTestIsIsLine | aesd-char-driver/main.c:48-60 | first newline at size - 1 holds exactly of strings whose only newline is their last byte |
| Driver.BlockRequestIsExact | aesd-char-driver/main.c:169-171 | the int block size either is the mathematical size or is a request the allocator refuses |
| Driver.WriteRefinesFeed | aesd-char-driver/main.c:154-206 | a write stores exactly when nothing fails and the new string fits a block, then acts as Feed; otherwise ring and logical contents are unchanged; it always returns an error, -ENOMEM exactly when it stored |
| Driver.WriteReturns | aesd-char-driver/main.c:154-206 | the error a write reports: -ENOMEM if and only if it stored, -ERESTARTSYS if and only if it got no lock, -EINVAL otherwise |
| Driver.WriteLeavesNull | aesd-char-driver/main.c:188-203 | exactly when the pending pointer is NULL after a write |
| Driver.ReadIsSlice | aesd-char-driver/main.c:64-93 | a read returns the bytes of the newest ten lines from its position, moves by their number, returns 0 exactly at or past the end or for count 0, and moves nothing when it fails, with the exact condition for failing |
| Driver.ChunkStaysInEntry | aesd-char-driver/main.c:80-84 | a read never crosses an entry boundary: it is all that was asked for or ends where the entry ends |
| Driver.ContentFitsInt | aesd-char-driver/aesd-circular-buffer.c:35-48 | in a consistent state all entry sizes together stay below 2^31 |
| Driver.SeekEndIsExact | aesd-char-driver/main.c:128-149 | SEEK_END goes to (0 if full, else total) + offset, a target outside loff_t leaves the position and returns -EINVAL, and a failed lock returns -ERESTARTSYS, for every offset |
| Driver.SeekCurIsExact | aesd-char-driver/main.c:124-125 | SEEK_CUR moves by its offset and returns the new position; a target outside loff_t, wrapped sums included, leaves the position and returns -EINVAL; for every 64-bit offset and any faults |
| Driver.SeekSetStays | aesd-char-driver/main.c:120-142 | SEEK_SET returns the position it keeps; an unknown whence is refused with -EINVAL |
| Driver.SeekEndReachesEndIff | aesd-char-driver/main.c:131-135 | SEEK_END with offset 0 reaches the end of the data if and only if fewer than ten lines were committed |
| Driver.SeekSetReachesOffsetIff | aesd-char-driver/main.c:120-122 | SEEK_SET keeps the position and returns it, so it reaches its offset if and only if the file is there |
| Driver.BytesBeforeSlot | aesd-char-driver/main.c:234-237 | the bytes in ring order before a physical slot, as a function of the history alone |
| Driver.SeekToIsExact | aesd-char-driver/main.c:227-239 | the position an accepted ioctl sets, as a function of the history, the slot and the offset; an unwritten slot counts all bytes |
| Driver.SeekToReturns | aesd-char-driver/main.c:216-244 | the ioctl never returns 0 or more; -ENOTTY, -EFAULT, -EINVAL and -ERESTARTSYS each exactly for their cause, in that order; -ENOMEM if and only if it took effect; a refused one keeps the position |
| Driver.SeekThenFind | aesd-char-driver/main.c:234-239 | after an ioctl to a slot and an offset the position search returns that slot, and that offset, if and only if the offset is inside the slot's line, for every uint32 offset including those that wrap |
| Driver.SeekTargetIsIntendedIff | aesd-char-driver/aesd_ioctl.h:26-33 | the ioctl's position is that of the zero-referenced write command if and only if the oldest line is in slot 0 |
| Drain.DrainIsComplete | server/aesdsocket.c:312-321 | repeated reads without interference hand over exactly the concatenation from the start position on |
| Drain.DrainCost | server/aesdsocket.c:312-321 | a drain from the start takes the sum over the entries of the reads each needs alone |
| Drain.ReadsIsCeiling | aesd-char-driver/main.c:80-84 | that number is the entry's size divided by the count, rounded up |
| Drain.SeekEndTarget | aesd-char-driver/main.c:128-149 | SEEK_END with offset 0 goes to the end of the content until the ring is full and to its start from then on |
| Drain.SeekEndThenDrain | aesd-char-driver/main.c:128-149 | reading from there gives nothing until the ring is full and the whole content from then on |
| Drain.SeekBackThenDrain | aesd-char-driver/main.c:128-149 | SEEK_END(-total) is accepted, at 0, if and only if the ring is not full; reading from 0 gives everything |
| Witnesses.InnerNewlineIsNotCommitted | aesd-char-driver/main.c:100-106 | an open and one write of a newline and a letter: accepted, nothing committed, nothing to read, although the stream holds a line |
| Witnesses.SeekSetIgnoresOffset | aesd-char-driver/main.c:120-122 | an open and SEEK_SET to 5: the file is at 0 |
| Witnesses.EmptyLinesAreReached | aesd-char-driver/main.c:154-206 | an open and n writes of an empty line lead to the ring of n empty lines with nothing pending |
| Witnesses.SeekEndGoesToStart | aesd-char-driver/main.c:131-135 | after an open and ten writes of an empty line SEEK_END(0) goes to 0, not to 10 |
| Witnesses.CommandZeroIsNewest | aesd-char-driver/main.c:234-239 | after an open and eleven writes of an empty line write command 0 is the newest line, at position 9 |
| Witnesses.FailedAppendLeaks | aesd-char-driver/main.c:178-182 | an open, a write of a letter, and another whose user copy fails: one block leaks |
| Witnesses.SeeksMove | aesd-char-driver/main.c:124-135 | after an open and one empty line SEEK_END(0) goes to 1 and SEEK_CUR(3) from there to 4 |
| Witnesses.ErrorNumbers | aesd-char-driver/main.c:64-245 | the numbers behind the error names, on a fresh device |
| Runs.RunRefinesLog | aesd-char-driver/main.c:64-245 | after any run of opens, writes, reads, seeks and ioctls with any faults, the device is in the state the accepted payloads call for and every position is a valid one |
| Runs.RunningTotalsAreExact | aesd-char-driver/main.c:131-134 | in every reachable state every int running total is the mathematical prefix sum |
| Runs.RunSeekThenFind | aesd-char-driver/main.c:234-239 | the same in every reachable state, and the ioctl leaves the device alone |
| Runs.RunConservesBytes | aesd-char-driver/main.c:168-203 | after any run, accepted bytes = evicted lines, then ring content, then pending |
| Runs.RunStoresLines | aesd-char-driver/main.c:100-106 | in every reachable state every slot is empty or holds one line |
| Runs.RunPendingIsNoLine | aesd-char-driver/main.c:100-106 | in every reachable state the pending string has no newline or its first one is before its last byte |
| Runs.RunSplitsStreamIff | aesd-char-driver/main.c:154-206 | after any run, whichever files wrote the chunks, history and pending are the newline split of the accepted stream if and only if no chunk had an inner newline |
| Runs.WedgedRunIsFrozen | aesd-char-driver/main.c:100-106 | once the pending string holds a newline no continuation of the run changes the ring |
| Runs.AbsoluteAdvances | aesd-char-driver/main.c:90 | between opens, accepted relative seeks and accepted ioctls of a file (SEEK_SET and refused calls are allowed), position plus evicted bytes grows by what the file read plus what was evicted, and by nothing else |
| Runs.RunDeliveredShows | aesd-char-driver/main.c:74-90 | every read in a run delivers the committed stream of the whole run at its position plus the bytes evicted so far |
| Runs.ReaderNeverSeesTwice | aesd-char-driver/main.c:74-90 | two reads of one file, with any commits and calls of others between: slices of one stream, in order, without overlap, and the gap is what the file read between plus exactly the bytes evicted between |
| Interface.ReadAnswers | aesd-char-driver/main.c:64-93 | a read returns the rest of the line at the position, its newline included, or as much of it as was asked for, with the exact error otherwise |
| Interface.CallIsAnswered | aesd-char-driver/main.c:64-245 | every call in a consistent state answers (return value, data, new position) and leaves behind what a description without ring, pointers, memory or int sums says |
| Interface.RunIsAsPromised | aesd-char-driver/main.c:64-245 | after any run of any calls on any files with any faults, accepted payloads and all positions are those of that description |
| Interface.EveryCallIsAnswered | aesd-char-driver/main.c:64-245 | and each single call of the run returned what it says |
| Interface.RunThenSeek | aesd-char-driver/main.c:112-150 | a seek after any run keeps the device and the other files and puts its file at the exact target of its whence |
| Interface.RunThenIoctl | aesd-char-driver/main.c:209-245 | the same for an ioctl |
| Interface.RunThenRead | aesd-char-driver/main.c:64-93 | the same for a read, with the bytes it hands over |
| CircularBuffers.Heap.Kfree | aesd-char-driver/aesd-circular-buffer.c:68 | only a live block may be freed, and it is live no more |
| Device.CheckCR | aesd-char-driver/main.c:48-60 | the scan returns the index of the first newline or -1 |
| Device.Device.SendEntryToCircularBuffer | aesd-char-driver/main.c:96-109 | the pending block passes to the ring exactly when it holds a line; ownership of every block is kept |
| Device.Device.AppendToPending | aesd-char-driver/main.c:168-187 | the append branch: new block, both copies, old block freed, or nothing changed; a failed copy leaks exactly one block |
| Device.Device.StartPending | aesd-char-driver/main.c:188-203 | the fresh branch: what it leaves pending in each outcome |
| Device.Device.AesdWrite | aesd-char-driver/main.c:154-206 | on the object: state and return value are those of Write, validity and ownership are kept, and a block leaks in exactly one case |
| Device.Device.AesdRead | aesd-char-driver/main.c:64-93 | on the object: return value, data and new position are those of Read; nothing else changes |
| Device.Device.AesdLlseek | aesd-char-driver/main.c:112-150 | on the object: return value and new position are those of Seek |
| Device.Device.AesdIoctl | aesd-char-driver/main.c:209-245 | on the object: return value and new position are those of SeekTo |
| Device.Device.Cleanup | aesd-char-driver/main.c:304-310 | the free loop frees every slot's block once; what stays live is the pending block and the leaked ones |
| Device.LiveBlockCount | aesd-char-driver/main.c:170-190 | in any valid state, live blocks = lines in the ring + 1 if pending is not NULL + leaked blocks |
| DeviceRuns.PlayRun | aesd-char-driver/main.c:31-245 | any run of calls on the device object, from loading on, returns the promised answers and ends in the state of Run, each open file at its position; leaked blocks = writes whose copy into an enlarged pending block failed; live blocks = lines + pending + those; so at most eleven when there was none |
| DeviceRuns.NoLeakIff | aesd-char-driver/main.c:168-182 | a run leaks nothing if and only if none of its calls is such a write |
| Conversation.AnswerMessage | server/aesdsocket.c:296-324 | write, SEEK_SET and the read loop on the device object send the whole content right after the write, whatever the write reported, in exactly the reads the entries need |
| Conversation.AnswerSeek | server/aesdsocket.c:273-291 | ioctl and the read loop send the content from the position the ioctl set, or all of it when refused |
| Receive.AssembleMessage | server/aesdsocket.c:227-263 | the 48000-byte buffer holds the bytes taken followed by NULs, never more than 47999, and the doubling test never succeeds |
| Receive.StopsAtFirstNewline | server/aesdsocket.c:239-248 | on text, everything before the last recv is newline-free, and unless the server stops running the message ends at a newline chunk, the end of the stream or 47999 bytes |
| Receive.EndsByItself | server/aesdsocket.c:228-263 | the loop has such a reason to end within as many turns as the stream or the buffer has bytes |
| Receive.LineIsTakenWhole | server/aesdsocket.c:228-263 | one line of at most 47999 bytes is received whole, however the network cuts it |
| Server.StepKeepsInv | server/aesdsocket.c:264-325 | every step of every thread under any fault keeps mutual exclusion, device consistency and, for each thread, sent so far = snapshot up to its file position |
| Server.OthersStayOk | server/aesdsocket.c:296-324 | what is known of a thread survives any step that leaves its position alone and adds no payload while it holds file_mutex |
| Server.SendingTerminates | server/aesdsocket.c:312-321 | in every interleaving each step of the sending thread ends its loop or shortens the work left, and no other thread's step touches device or reply |
| Server.StepWrites | server/aesdsocket.c:296-303 | every step adds to the accepted payloads exactly what it writes: the thread's message, in its one step under file_mutex, if nothing fails and it fits a block together with what is pending |
| Server.StepCuts | server/aesdsocket.c:284-321 | a step marks a reply as cut if and only if it is a read of that thread's sending loop that fails, or a failing send of a seek reply |
| Server.SendsRestOfLine | server/aesdsocket.c:284-313 | each chunk sent is the rest of one line, or 48000 bytes of it |
| ServerRuns.PlayKeepsInv | server/aesdsocket.c:207-335 | the invariant holds after every schedule of every set of requests |
| ServerRuns.CutIffInterrupted | server/aesdsocket.c:284-321 | a reply is marked as cut if and only if some turn of the schedule was such a failing call of its own thread |
| ServerRuns.AtomicReply | server/aesdsocket.c:264-325 | in every interleaving a finished thread made its write in one turn (its message was added unless a fault or the block limit prevented it) or its ioctl, and passed to send exactly the ring content right after it (or from the ioctl's position on); a prefix of it only if a turn of the schedule was a failing call of its own sending loop |
| ServerRuns.EchoesNewestTen | server/aesdsocket.c:296-324 | when all messages are lines, each reply with no failing read in the schedule is the newest ten accepted messages up to the client's own turn in one order common to all clients, its own message last exactly if its write met no fault |
| ServerRuns.AtomicReplyAfter | server/aesdsocket.c:264-325 | a thread that has not had its turn at some moment has it after that moment, with the reply AtomicReply gives |
| ServerRuns.FrozenServer | aesd-char-driver/main.c:100-106 | once an accepted message has an inner newline no turn of any thread changes the ring or the history |
| ServerRuns.FrozenReplies | server/aesdsocket.c:264-325 | from then on every reply whose turn is still to come is the one that frozen ring gives, the same for all messages |
| SerialOrder.AcceptedIsSerial | server/aesdsocket.c:264-325 | in every interleaving the accepted payloads are those of serving the clients one after the other in the order of their turns |
| SerialOrder.OneTurnEach | server/aesdsocket.c:264-325 | each client has at most one place in that order, with its own request |
| SerialOrder.OrderHasPlaced | server/aesdsocket.c:264-325 | a client is in the order exactly when it has made its write or ioctl |
| SerialOrder.OrderFollowsTime | server/aesdsocket.c:264-325 | the order respects time: whoever had its turn at some moment comes before whoever had not |
| SerialOrder.ServedInOrder | server/aesdsocket.c:264-325 | each finished client was sent the reply of its place in the serial service, whole unless a turn of the schedule interrupted it |
| Progress.SomeoneCanMove | server/aesdsocket.c:264-325 | no deadlock: while some thread has not finished some thread can move, whatever fails |
| Progress.BusyNeverIdles | server/aesdsocket.c:264-325 | for every sequence of faults there is a scheduler that wastes no turn |
| Progress.NeverIdlesKeepsMoving | server/aesdsocket.c:264-325 | a scheduler that wastes no turn keeps moving |
| Progress.StepMakesProgress | server/aesdsocket.c:264-325 | every step that does something decreases a well-founded measure |
| Progress.EveryScheduleFinishes | server/aesdsocket.c:207-335 | along its own states, every endless schedule that does not end in idle turns only finishes all threads, whatever fails |
| Progress.FinishesIffKeepsMoving | server/aesdsocket.c:207-335 | and only such a schedule does |
| Progress.FairKeepsMoving | server/aesdsocket.c:264-325 | every schedule in which each thread's turn comes again and again keeps moving, although a thread waiting for file_mutex is given turns |
| Progress.FairScheduleFinishes | server/aesdsocket.c:207-335 | so under every fair schedule all threads finish, whatever fails |
| Progress.EveryoneIsAnswered | server/aesdsocket.c:207-335 | for all requests and every fair schedule there is a turn after which every thread has finished and each reply is the snapshot of its own turn |
| Progress.EveryoneIsServed | server/aesdsocket.c:207-335 | and that end is the end of one serial service in which every client that made a request has its place and its reply |
| ConnectionList.ChainHasNoRepeat | server/linkedlist.h:52-55 | a list that reaches NULL visits no node twice |
| ConnectionList.ChainIsUnique | server/linkedlist.h:52-55 | a heap list has one sequence of nodes |
| ConnectionList.List.CreateNode | server/linkedlist.h:29-42 | a fresh node with next = NULL |
| ConnectionList.List.AppendNode | server/linkedlist.h:46-60 | the sequence grows by the node at its end, the list stays acyclic, and only the head of an empty list or the last link changes |
| ConnectionList.List.FreeList | server/linkedlist.h:62-73 | every node of the list is freed while live, hence once, nothing else is, and head ends NULL |

## Left out

- Module loading, device registration, `container_of`, logging: calls into the kernel with nothing to prove. `aesd_open` and `aesd_release` appear only as the making of a file position at 0.
- Socket set-up, `accept`, `fork`, signals and the parsing of a seek command: a connection is its byte stream, and a thread starts from the parsed request.
- A failing `recv` and a failing `open`: assumed not to happen.
- `removeFinishedThreads`: it starts from NULL and does nothing.
- The build without the character device, its timer thread, `readfile` and `writefile`, and `aesdsocket-nothread.c`.
- Processes other than the server using the device: the driver theorems over runs cover them, the server theorems do not.
- Server.StepKeepsInv: threads exist from the start and are scheduled later, instead of being created by `accept`; each opens the device at its own time, so replies are the same.
- ConnectionList.List.AppendNode: its own mutex is not modelled; only the accept loop calls it.
- CircularBuffers.CircularBuffer.SizeUpTo: the loop is written once, although the driver has it twice, at lines 131-134 and 234-237 of main.c.
- Device.Device.AesdWrite: its two branches are methods of their own, so that each proof stays short; the fresh branch stores the new pointer after testing it for NULL, where the driver stores it before, with the same result.
