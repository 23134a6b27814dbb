# aesdchar driver and aesdsocket server: a verified model

This project models the `aesdchar` character device and the `aesdsocket` server that writes to it
or to a regular file, and proves what they promise their users. Three parts:

**The device** (`aesd-char-driver/`). Writes pile up in a pending entry; when the pending bytes end in
a newline the entry moves into a ring of ten, which evicts the oldest. Reads, sizes and the seek
ioctl see the ring as one byte string.
- `CircularBuffer.dfy`: the ring as a class over its slots, indices and flag, and as the bounded queue it stands for.
- `DeviceModel.dfy`, `DeviceMeaning.dfy`: the effect of every call on ring, pending entry and kernel heap, and what it
  means for the commands a user sees. Blocks have identities, so that ownership, double frees and leaks can be stated.
- `Device.dfy`, `DeviceDriver.dfy`: the driver's operations as imperative methods with exactly those effects.
- `DeviceRuns.dfy`, `DeviceLaws.dfy`: whole runs; splitting writes, reading to the end, seeking.
- `CallSteps.dfy`, `CallEffects.dfy`, `Linearizability.dfy`, `PeakBlocks.dfy`: the same operations statement by
  statement, any number of callers interleaved under the device lock.

**The server's connections** (`server/src/`).
- `Transfer.dfy`, `LineReader.dfy`, `SeekCommand.dfy`: the partial-transfer loop, the line reader, the seek command's text.
- `CharDeviceServer.dfy`: one connection over the device, from the packet to what the client receives.
- `SharedFile.dfy`: any number of connections and the timer appending to one regular file under one mutex and reading it
  back without it, as a state machine in which the kernel chooses every transfer size and failure.

**The connection list** (`server/src/aesdsocket.c`).
- `ConnectionList.dfy`: the linked list, edited while main walks over it, with workers going inactive during the walk.
- `Handoff.dfy`: whole runs of main and its workers step by step: the list with its `tail`, and how a worker's result
  reaches main.

Where the code and what it says about itself differ, the model follows the code:
- After a write the position is the ring's size minus one, not its end as the comment at
  `aesd-char-driver/main.c:155` has it, and -1 for an empty ring (`DeviceLaws.ReadAfterWrite`).
- A write of no bytes while none are pending looks at byte -1 of a fresh block. The model calls this `Crash`, and shows
  that it is the only way a call can go wrong (`DeviceMeaning.WriteMeaning`, `DeviceRuns.CrashCause`,
  `Linearizability.OnlyCrashesKill`).
- A write whose user copy faults loses its new block; runs count these (`DeviceRuns.OwnershipConserved`).
- Splitting a write changes the outcome when a piece before the last ends in a newline (`DeviceLaws.WriteSplit`, both directions).
- The line reader does not terminate its receive buffer behind a short receive, so a newline that lay there can end the
  line (`LineReader.StaleNewline`); bytes behind a newline are counted but not copied (`LineReader.Framing`); and the
  grown block has no place for a terminator, so a well-framed line of 128 bytes or more needs a spare byte from the
  allocator (`LineReader.WellFramedLine`, both directions).
- 4294967295 is refused in a seek command, because it becomes -1 in an int (`SeekCommand.SeekRoundTrip`, both directions).
- `tail` is left pointing to a freed record when the last worker on the list is reaped, even if the list is then
  empty (`ConnectionLists.ConnectionList.Round`, both directions; `ConnectionLists.StaleTail`). The next connection is
  inserted behind it: that, and nothing else, touches a freed record (`Handoff.UseAfterFreeExactly`,
  `Handoff.SecondConnectionLate`).
- Main returns 0 after a signal even if workers aborted (`Handoff.EndAccounts`).
- `is_active` is cleared before the result is stored; only the join makes the read safe (`Handoff.FlagIsNotEnough`).

The kernel's and the C library's decisions are parameters: whether a lock is interrupted, memory is short or a user copy
faults, how much a write, read, send or receive takes, what is received, who runs next. Integers are unbounded except
where the width matters: `size_t` and `unsigned long` have 64 bits, `int` 32, and their wrapping is written out.

## Model

| member | source | states |
|---|---|---|
| CircularBuffers.CircularBuffer.constructor | aesd-char-driver/aesd-circular-buffer.c:98-101 | a fresh ring is the empty ring |
| CircularBuffers.CircularBuffer.FindEntryOffsetForFpos | aesd-char-driver/aesd-circular-buffer.c:29-55 | NULL exactly when the offset is at or beyond the total size; otherwise the slot of the entry the offset falls in, and the offset inside it, for any rotation and any fill |
| CircularBuffers.CircularBuffer.AddEntry | aesd-char-driver/aesd-circular-buffer.c:64-93 | a bounded queue's enqueue: the new entry is last, a full ring loses its oldest, and that one's buffer is returned |
| CircularBuffers.CircularBuffer.Size | aesd-char-driver/aesd-circular-buffer.c:106-120 | the sum of the stored entries' sizes; the ring is not changed |
| CircularBuffers.PushQueue | aesd-char-driver/aesd-circular-buffer.c:78-90 | the four assignments of an add keep the ring's invariant and refine the queue; the overwritten slot is the oldest entry's or empty |
| CircularBuffers.FifoEviction | aesd-char-driver/aesd-circular-buffer.c:72-92 | after n adds from empty: in_offs is n mod 10, full holds iff n >= 10, out_offs is the oldest entry's slot, the last ten entries are stored, and the next add returns NULL for n below 10 and otherwise the buffer of add n - 10 |
| CircularBuffers.EvictionShift | aesd-char-driver/aesd-circular-buffer.c:64-93 | an add moves every surviving byte down by the evicted entry's size when the ring is full, and no byte otherwise, as lookup sees it |
| CircularBuffers.ScanHit | aesd-char-driver/aesd-circular-buffer.c:41-52 | the first slot at which the running sum passes the offset is the entry that holds it |
| CircularBuffers.LocatePosition | aesd-char-driver/main.c:206-225 | looking up the position computed for (command, offset) gives that pair back |
| CircularBuffers.PositionUnique | aesd-char-driver/main.c:206-225 | every position below the total is computed from exactly one valid pair, the one lookup gives |
| DeviceModel.ExtendedSound | aesd-char-driver/main.c:120-141 | growing the pending entry appends the new bytes, leaves the ring's commands alone, frees the old block and loses none |
| DeviceModel.FlushedSound | aesd-char-driver/main.c:144-153 | a flush makes the pending bytes the newest command, drops the oldest of ten, empties the pending entry and loses no block |
| DeviceMeaning.LookupIsIndexing | aesd-char-driver/aesd-circular-buffer.c:37-54 | lookup succeeds exactly below the length of the concatenated commands, and finds the byte the concatenation has there |
| DeviceMeaning.StreamTotal | aesd-char-driver/aesd-circular-buffer.c:106-120 | the size function's value is the length of the concatenation, and fits size_t |
| DeviceMeaning.ReadMeaning | aesd-char-driver/main.c:60-98 | a read gives the next bytes of the command the position falls in, at most count and never beyond that command, and moves the position by as many; nothing outside the stream; a fault or an interruption changes nothing |
| DeviceMeaning.ReadIsSlice | aesd-char-driver/main.c:76-93 | a read's bytes are the concatenation's bytes between the old and the new position, and a positive count advances |
| DeviceMeaning.WriteMeaning | aesd-char-driver/main.c:100-163 | every write appends its whole buffer and sets the position to the ring's size minus one, or fails and leaves contents and position alone, or looks at byte -1; each exactly when stated, with -ERESTARTSYS, -ENOMEM or -EFAULT for the failure it is; only a faulting copy loses a block |
| DeviceMeaning.SeekMeaning | aesd-char-driver/main.c:183-232 | the seek succeeds exactly for a stored command and an offset inside it; its position looks up to that pair, and from there the stream is the rest of that command and the later ones; otherwise no change, and the code of the first test that fails |
| DeviceMeaning.OtherIoctlMeaning | aesd-char-driver/main.c:251-252 | any other command gets -ENOTTY and changes nothing |
| DeviceMeaning.SeekReachesEveryPosition | aesd-char-driver/main.c:205-227 | every position below the total is left by exactly one successful seek |
| AesdDevice.CharDevice.constructor | aesd-char-driver/main.c:297-308 | a loaded device is empty |
| AesdDevice.CharDevice.Read | aesd-char-driver/main.c:60-98 | the imperative read leaves device and position, and returns, what the specification of a read says |
| AesdDevice.CharDevice.Write | aesd-char-driver/main.c:100-163 | the imperative write, with its allocation, copies, frees and flush, has exactly the specified effect and result for every call, the look at byte -1 among them; the device stays valid after every other |
| AesdDevice.CharDevice.AllocPending | aesd-char-driver/main.c:122-131 | a new block of the right size holds the pending bytes, with a terminator; nothing else changes |
| AesdDevice.CharDevice.FillPending | aesd-char-driver/main.c:133-141 | the pending bytes have grown by the user's, the commands and the lost blocks are the same: the device the specification calls extended |
| AesdDevice.CharDevice.FlushWhenComplete | aesd-char-driver/main.c:144-153 | the pending entry moves into the ring exactly when its last byte is a newline, and the evicted block is freed |
| AesdDevice.CharDevice.AdjustFileOffset | aesd-char-driver/main.c:183-232 | the loop with its running offset sets the position, or fails, as the specification of a seek says |
| AesdDevice.CharDevice.Ioctl | aesd-char-driver/main.c:234-256 | any other command gets -ENOTTY and changes nothing; the seek command gets -EFAULT, -EINVAL, -ERESTARTSYS or -EINVAL by the first test that fails, without any change, and 0 exactly for a stored pair |
| AesdDevice.CharDevice.Cleanup | aesd-char-driver/main.c:329-340 | frees the ring's blocks and the pending one; only the blocks lost before stay |
| AesdDevice.CleanupFacts | aesd-char-driver/main.c:329-340 | cleanup frees live blocks only, and none twice |
| DeviceRuns.WholeDevice | aesd-char-driver/main.c:100-163 | after any run the ring holds exactly the last ten completed commands, the pending entry the rest, and all completed commands followed by the pending bytes are the bytes of the successful writes in order |
| DeviceRuns.RecordConserves | aesd-char-driver/main.c:138-153 | no byte is lost, invented or reordered; completed commands end in a newline and pending bytes do not |
| DeviceRuns.CrashCause | aesd-char-driver/main.c:144 | a run that went wrong has a call that wrote nothing to nothing |
| DeviceRuns.CrashStays | aesd-char-driver/main.c:144 | and any such call spoils every run it occurs in |
| DeviceRuns.LiveBlocks | aesd-char-driver/main.c:122-153 | live blocks are the ring's, the pending entry's and the lost ones, all distinct; the first two at most eleven |
| DeviceRuns.StepLeaks | aesd-char-driver/main.c:133-136 | a call loses a block exactly when it is a write whose user copy faults after the allocation, and then the new one |
| DeviceRuns.OwnershipConserved | aesd-char-driver/main.c:122-153 | after any run live blocks are pending, ring and one per faulted write; every other block ever allocated was freed exactly once |
| DeviceDriver.Perform | aesd-char-driver/main.c:258-266 | any call on the imperative device has its specified effect and result, and keeps the device valid unless it looked at byte -1 |
| DeviceDriver.Drive | aesd-char-driver/main.c:60-256 | any sequence of calls on any distinct open files takes the imperative device, every position and every result where the specified run goes, whether or not a call goes wrong |
| DeviceDriver.Lifetime | aesd-char-driver/main.c:297-340 | from load through any calls to unload, unless one of them went wrong, every block ever allocated is freed exactly once, except one for each write whose user copy faulted |
| DeviceLaws.SplitExact | aesd-char-driver/main.c:129-153 | appending in non-empty pieces equals appending at once if and only if no piece but the last ends in a newline |
| DeviceLaws.WriteSplit | aesd-char-driver/main.c:129-156 | the same on the device from any state: same pending bytes, ring contents and positions, and if a piece does end in a newline, different contents |
| DeviceLaws.ReadCompleteness | aesd-char-driver/main.c:76-93 | on any run in which file f only reads and no file completes a command, f receives exactly the stream from its position on; every undisturbed read moves on until the end, so enough of them deliver all of it |
| DeviceLaws.ReadStaysInCommand | aesd-char-driver/main.c:83-93 | a read delivers bytes of the one command its position is in, and ends at that command's end exactly if it asks for enough |
| DeviceLaws.ReadAfterWrite | aesd-char-driver/main.c:155-156 | a read right after a write gives the ring's last byte again, or nothing from an empty ring |
| DeviceLaws.SeekThenRead | aesd-char-driver/main.c:205-227 | after a successful seek of file f, on any run in which f only reads and no file completes a command, f receives a prefix of the rest of that command and the later ones, all of it after enough reads |
| CallSteps.MicroDescends | aesd-char-driver/main.c:72-162 | every statement brings the end of a critical section nearer, so each one ends |
| CallEffects.FinishIsDoCall | aesd-char-driver/main.c:72-231 | a critical section of read, write or seek, run statement by statement from any valid device, ends in exactly the specified effect |
| Linearizability.AlwaysAgrees | aesd-char-driver/main.c:72-162 | at every statement of every interleaving, callers outside the lock stand where the sequential run in lock order has them, and the holder will end there |
| Linearizability.ProgramOrder | aesd-char-driver/main.c:72-231 | the lock order keeps every caller's own order of calls and leaves none out |
| Linearizability.Linearizable | aesd-char-driver/main.c:72-231 | whenever the lock is free, device, positions and results are those of running the calls whole in lock order |
| Linearizability.OnlyCrashesKill | aesd-char-driver/main.c:116-162 | under any interleaving a caller makes a bad access or a bad free only if some write added nothing to nothing |
| Linearizability.CanReturn | aesd-char-driver/main.c:72-162 | whatever has happened, the caller that has the lock can leave its critical section by its own statements, and then any caller can return from its next call by its own, unless one of the two dies |
| PeakBlocks.MicroAdds | aesd-char-driver/main.c:120-153 | only a write's allocation adds a block, and one |
| PeakBlocks.AtMostTwelve | aesd-char-driver/main.c:120-153 | at every statement at most eleven blocks are live, at most twelve while a write is past its allocation, not counting those lost to faults |
| Transfer.PutChars | server/src/utils.c:63-80 | for every sequence of answers: what was delivered is the prefix they took; success means the whole buffer, failure an error answer with bytes left |
| Transfer.PositiveAnswersFinish | server/src/socket.c:161-179 | positive answers finish the loop after at most as many as there are bytes |
| Transfer.TakenIsSum | server/src/socket.c:166-176 | without errors the loop goes on exactly while the answers add up to less than the buffer |
| LineReader.SockGetLine | server/src/socket.c:88-155 | the code, with its buffers on arrays, has for every sequence of receives, whatever lay in its memory, the outcome of the specification `GetLine`: the block and lengths returned, NULL, still in the loop, or a copy that leaves the block |
| LineReader.TakeChunk | server/src/socket.c:126-139 | one receive over the buffer yields the C string the buffer then holds up to its first newline, as LineMeans says what that is |
| LineReader.LineMeans | server/src/socket.c:131-139 | what is copied is the one beginning of the buffer without NUL that ends with its only newline or where the buffer has a NUL: no byte more and none of its own |
| LineReader.BufferMeans | server/src/socket.c:101 | a byte of the buffer is from the last receive that reached it, or what lay there before |
| LineReader.Outcomes | server/src/socket.c:100-141 | on every input: NULL exactly at a failed receive or allocation, a copy outside the block exactly when it and its terminator are longer than the room, a return exactly at the first string with a newline, with the number of bytes received |
| LineReader.Framing | server/src/socket.c:100-141 | for receives without NUL, when the buffer held no newline before or none of it is left after the first receive: the reader returns exactly at the first receive that holds a newline, unless an earlier one fails or its copy leaves the block; what it returns is what it received if and only if that newline is the receive's last byte |
| LineReader.CopiedFull | server/src/socket.c:89-139 | after a full first receive each copy without newline is the whole buffer, so the outcome follows from the receives alone |
| LineReader.StaleNewline | server/src/socket.c:89-137 | what lay in the buffer can end the line after the first receive if and only if that neither fills the buffer nor holds a newline |
| LineReader.WellFramedLine | server/src/socket.c:93-139 | a well-framed line is returned whole if and only if it is shorter than 128 bytes or the allocator gives a byte more than asked for; otherwise the second copy leaves the block |
| LineReader.CapacitySuffices | server/src/socket.c:110-124 | one doubling always suffices for the data: the capacity is never below the length, and once grown below twice the length |
| SeekCommand.ParseSeek | server/src/connection.c:85-109 | for every content of the packet's memory the code, through an int temporary, makes of it what the specification `Parse` does, which DataPacket, ParseNumbers and LineStaysInside describe |
| SeekCommand.ThePrefix | server/src/connection.c:85 | the prefix, byte by byte |
| SeekCommand.DataPacket | server/src/connection.c:85 | a packet is data if and only if it differs from the prefix in one of its nineteen bytes |
| SeekCommand.ParseNumbers | server/src/connection.c:91-109 | for every two subjects, of white space, a sign and digits: the numbers they denote modulo 2^32, or an abort when one is 2^32 - 1; the second is looked for behind the byte after the first, or after the prefix if the first has no digits |
| SeekCommand.ReadsSubject | server/src/connection.c:92 | strtoul, on every input that ends: the number the subject denotes, saturated, negated for a minus sign, 0 without digits |
| SeekCommand.SubjectOf | server/src/connection.c:92 | every input whose conversion stays inside it has such a subject |
| SeekCommand.ThroughInt | server/src/connection.c:92-99 | through the int and back the low 32 bits survive; all ones, and nothing else, compare equal to ULONG_MAX |
| SeekCommand.LineStaysInside | server/src/connection.c:91-102 | the parsing of a line that ends in a newline and its terminator looks at nothing behind the terminator |
| SeekCommand.ParseText | server/src/connection.c:85-109 | for all numbers: what the handler makes of the text a client sends, whatever lies behind it |
| SeekCommand.SeekRoundTrip | server/src/connection.c:85-109 | the text of (X, Y) parses back to (X, Y) if and only if both are below 2^32 - 1 |
| CharDeviceServer.SendFile | server/src/connection.c:147-161 | the client has received the stream from the position up to some byte; the loop ends well exactly when that is all of it, which it is for a socket that always takes something |
| CharDeviceServer.Serve | server/src/connection.c:84-161 | for any packet memory and length: a packet that differs from the prefix of a seek command is appended and the whole ring sent, exactly when its write does not fail; a seek command leaves the device alone and sends the rest of the named command and the later ones if the pair is stored, and aborts otherwise; what is sent is a prefix of what is due, and less than all of it exactly on abort |
| CharDeviceServer.ServeSeek | server/src/connection.c:111-156 | for a stored pair a prefix of the rest of that command and the later ones is sent, all of it if and only if there is no abort; for any other pair nothing is sent and the connection aborts |
| CharDeviceServer.ServeWrite | server/src/connection.c:120-156 | the packet is appended exactly when its write does not fail, and then a prefix of the whole ring is sent, all of it if and only if there is no abort |
| CharDeviceServer.SeekEndToEnd | server/src/connection.c:85-156 | the text of a stored pair parses back to it, the ioctl succeeds, and on any run in which the client's file only reads and no file completes a command it receives a prefix from that byte on, all of it after enough reads |
| SharedFile.NextKeeps | server/src/connection.c:120-161 | every step of every thread keeps the protocol's invariant and changes nothing already settled in the file |
| SharedFile.AppendAtomicity | server/src/connection.c:120-128 | in every reachable state the file is contiguous segments end to end, each a prefix of its record and the whole of it if putchars returned 0; only the lock holder's, the last, can still grow |
| SharedFile.SegmentPerSection | server/src/signal.c:139-144 | there is one segment for each acquisition of the mutex, in that order, and no other, with that thread's record |
| SharedFile.SegmentWasReceived | server/src/connection.c:77-124 | a segment's record is one its owner received before |
| SharedFile.AppendOnly | server/src/utils.c:63-80 | between any two moments of a run the file only grows, and closed segments stay as they are |
| SharedFile.SentIsPrefix | server/src/connection.c:147-156 | at every step what a client has been sent is a prefix of the file |
| SharedFile.ReadBack | server/src/connection.c:137-161 | a connection that completes without abort, as CanComplete says every one can, has sent exactly the file as it stood at its zero-byte read, with the packet it received whole in one piece |
| SharedFile.TranscriptsAgree | server/src/connection.c:147-156 | of what any two clients have been sent, one is a prefix of the other |
| SharedFile.AbortsExactly | server/src/connection.c:130-161 | a thread finishes with abort if and only if one of its own receive, write, lseek, read, send or close has failed |
| SharedFile.CanComplete | server/src/connection.c:120-161 | from every reachable state a connection that has not failed can complete without abort, having been sent the whole file: the lock's holder gives the lock back by its own steps, and the rest are the connection's own |
| SharedFile.DoneStays | server/src/connection.c:181-183 | a thread that is done stays as it is |
| SharedFile.Roles | server/src/aesdsocket.c:134-165 | there is one timer, and one connection for each accept |
| SharedFile.TimerLoops | server/src/signal.c:109-156 | a timer that has not failed waits, appends, or is about to unlock: it never reads back or ends |
| SharedFile.TimerReturns | server/src/signal.c:139-156 | after each whole record the timer waits for its signal again |
| SharedFile.CanStamp | server/src/signal.c:109-156 | from every reachable state a timer that has not failed can append any timestamp whole and wait again, by its own steps once the lock's holder has given the lock back |
| SharedFile.TimerRecords | server/src/signal.c:133-142 | the timer's records have 30 bytes |
| ConnectionLists.ConnectionList.Append | server/src/aesdsocket.c:171-176 | while tail is NULL on an empty list or the last record, a new record goes to the end and tail is right again |
| ConnectionLists.ConnectionList.Remove | server/src/aesdsocket.c:196 | the walk from the head unlinks exactly the given record and keeps the order of the others |
| ConnectionLists.ConnectionList.Visit | server/src/aesdsocket.c:184-212 | a worker seen inactive is removed and freed and the walk goes on with the one behind it; otherwise nothing changes and the walk moves on |
| ConnectionLists.ConnectionList.Reap | server/src/aesdsocket.c:180-213 | for every list and schedule each worker is visited once, in order; exactly those seen inactive are joined and freed, once; the others stay in order; abort records a negative result; the pass ends |
| ConnectionLists.ConnectionList.Round | server/src/aesdsocket.c:150-214 | the same with a new connection, for a right and for a stale tail: undefined exactly if a connection comes while tail is stale; otherwise tail can serve the next insertion if and only if it could serve this one and the last worker was not reaped, and is stale if it cannot |
| ConnectionLists.ConnectionList.Drain | server/src/aesdsocket.c:217-230 | every remaining worker is joined and freed once, in order, and the list is empty |
| ConnectionLists.Membership | server/src/aesdsocket.c:183-213 | a worker is reaped if and only if it was seen inactive, and survives if and only if it was not |
| ConnectionLists.OnceEach | server/src/aesdsocket.c:183-213 | no worker is reaped twice and none is lost |
| ConnectionLists.OrderKept | server/src/aesdsocket.c:196-212 | survivors keep their relative order |
| ConnectionLists.ActiveMeaning | server/src/aesdsocket.c:184 | a worker is seen inactive once it was so at the beginning or its turn to finish has come |
| ConnectionLists.TailAfter | server/src/aesdsocket.c:196-206 | the list still ends with the worker it ended with exactly when that one was not reaped |
| ConnectionLists.StaleTail | server/src/aesdsocket.c:171-206 | one connection that ends before the pass leaves tail pointing to a freed record over an empty list |
| Handoff.NextKeeps | server/src/aesdsocket.c:150-230 | every step of main, with its tail, or of a worker keeps the hand-off's invariant: the list is in order of acceptance, tail is the connection accepted last, freed or not, a record is freed only after its worker has exited, and main is in accept only without abort |
| Handoff.ListInOrder | server/src/aesdsocket.c:171-176 | the list is the accepted connections whose records are not freed, in the order they came |
| Handoff.LoopCondition | server/src/aesdsocket.c:150 | at the loop condition main goes on to accept if and only if no signal has come and no status read is negative |
| Handoff.AcceptsUnharmed | server/src/aesdsocket.c:150-157 | while main is in accept no accept has failed and no status it has read is negative |
| Handoff.DrainsBecause | server/src/aesdsocket.c:150-157 | main leaves the loop only after a signal, a failed accept or a negative status |
| Handoff.OneMoreConnection | server/src/aesdsocket.c:150-177 | after a signal at most one more connection is taken |
| Handoff.WholePass | server/src/aesdsocket.c:179-213 | between two accepts, with or without a connection, main looks at every worker on the list, and has by the second joined and freed exactly those whose flag it found cleared |
| Handoff.HandedOver | server/src/connection.c:181-183 | every status main has read is the one the worker decided on; flag, store, exit and read happened in this order |
| Handoff.NoUseAfterFree | server/src/aesdsocket.c:180-230 | no step of a worker, and no step of main but an insertion, touches a freed record |
| Handoff.UseAfterFreeExactly | server/src/aesdsocket.c:160-197 | a step touches a freed record if and only if it takes a connection after the record of the connection before it was freed |
| Handoff.UndefinedExactly | server/src/aesdsocket.c:160-197 | a run is undefined if and only if such a connection came |
| Handoff.SecondConnectionLate | server/src/aesdsocket.c:160-197 | a run of ten steps in which one connection ends before its pass and the next one is such a connection |
| Handoff.EndAccounts | server/src/aesdsocket.c:150-256 | when main ends, no connection came late; every connection accepted has its worker, which has exited, its record freed, its result read exactly once; main returns -1 if and only if an accept failed or a worker aborted, and sig_exit is not set |
| Handoff.FlagsMean | server/src/aesdsocket.c:150-157 | sig_exit is set if and only if a signal came before main ended; an accept counts as failed if and only if one did |
| Handoff.FlagIsNotEnough | server/src/connection.c:181-182 | main can see a worker inactive while its record still holds the connection's descriptor |
| Handoff.CanFinish | server/src/aesdsocket.c:183-230 | from every reachable state but an undefined one some continuation ends main: there is no deadlock |

## Left out

- Module registration, cdev setup, open, release and the failure paths of module load: kernel plumbing.
- aesd_llseek other than the server's return to position 0: it delegates to fixed_size_llseek, which is not part of this model.
- Sockets, host lookup, daemonizing, signal registration, timer creation, date formatting, logging: library and system calls. A timestamp is any record of 30 bytes; that the timer thread ends by SIGTERM or by an error is one event.
- The repository's example programs, finder-app/writer.c and the shell scripts: thin wrappers, or loops already modelled.
- The kernel heap hands out identities that are never reused and refuses once 2^63 bytes are live; address reuse and alignment are not modelled, and uninitialised bytes read as zero.
- A user copy that faults delivers nothing and, on a write, its partial bytes are in the lost block only; the bytes a faulted read may have copied to the user are not modelled.
- The kernel limits count to 2^63 - 1 and runs one call at a time on an open file; calls sharing an open file at the same moment are not modelled.
- DeviceRuns.CrashStays: `Crash`, a caller that dies holding the lock, stands for undefined behaviour. The code goes on with whatever byte -1 is, and flushes an entry of size zero or leaves an empty pending one; what it does then is not modelled.
- DeviceLaws.ReadAfterWrite: describes the driver alone. The kernel normally refuses a negative position before it calls a driver, so the read at position -1 after a write to an empty ring may not get there.
- LineReader.Framing: says nothing where a NUL is received, or where the buffer held a newline and the first receive is short and without one; there LineReader.Outcomes holds, stated on what the buffer contains. What a copy outside the block destroys is not modelled.
- SeekCommand.ParseSeek: what strtoul makes of bytes outside the packet's memory is not modelled; the model only says that it looks there.
- Transfer.PutChars: stands for putchars and sock_putchars, whose loops are the same; its answers are bounded by what was offered, as write and send guarantee.
- CharDeviceServer.Serve: one connection, undisturbed by other writers while it reads back: a snapshot under concurrent flushes is not something the code provides. Reads in the copy loop are not interrupted and do not fault; a socket that stops answering counts as one that fails.
- SharedFile.CanComplete: says that a connection can complete, not that a fair scheduler and a peer that goes on reading make it.
- Linearizability.CanReturn: says that a call can return, likewise.
- SharedFile.ReadBack: the mutex is always taken, and read returns 0 exactly at the end of the file, as for a regular file.
- ConnectionLists.ConnectionList.Round: says nothing of what an insertion behind a stale `tail` does, which C leaves undefined, so it is not promised that every accepted connection is joined; nor does Handoff.UseAfterFreeExactly say anything of what follows. Records have identities that are never reused; that malloc may hand out the freed record again is not modelled.
- ConnectionLists.ConnectionList.Reap: the join itself is an oracle for the worker's result; Handoff shows what it is.
- Handoff.CanFinish: says that main can still end, not that a fair scheduler makes it; thread creation and joining are taken to succeed.
