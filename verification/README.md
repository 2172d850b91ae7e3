# Verification models for the TAUV drivers

Dafny models of the parts of this repository where a mistake would be hard to see by reading: the Xsens thread
pool, the KVH 1775 packet receiver, the Xbus codec with the firmware updater on top of it, the arming logic of the
thruster driver, and the CRC-4 of the MS5837 pressure sensor. `dafny verify dfyconfig.toml` checks everything.

Each component has two layers. A value-level model states what the code does as functions on states, and the main
results are lemmas about all inputs, all runs or all reachable states of that model. Beside it stand the objects of
the original, with its fields, loops and arrays; every method is proved to change the object exactly as the model says.

## What is modelled

**Thread pool** (`TaskPoolModel`, `TaskPoolRuns`, `TaskPoolCancel`, `TaskPoolOrder`, `TaskPoolProgress`,
`TaskPoolWaiting`, `ThreadPool`). Every method runs under one recursive mutex, so a run is any sequence of method
calls, by any threads. A task is its id; the state is the ready deque, the index of its ids, the executing and
delaying maps, and the list of dependents of every task ever added (shared ownership keeps the lists of departed
tasks). The outcome of a task's `exec` is arbitrary. The results: an invariant of all reachable states, order of
dependent and of ready tasks over whole runs, conservation, when exactly a report or a cancellation makes a task
leave, lost wake-ups excluded, exactly which steps can bring the pool to a standstill, and the correctness of
`TaskCompletionWaiter` while other threads keep changing the pool between its checks.

**KVH receiver** (`PolyDivision`, `Words`, `Crc32`, `CircularBuffers`, `KvhConstants`, `KvhFrames`, `KvhDatagrams`,
`KvhScanner`, `KvhDriver`, `KvhRuns`; `Sequences` is shared with Xbus). The table-driven CRC-32 is proved equal to
bit-serial polynomial division, from which follows that no burst of up to 32 bits goes unnoticed; a datagram's 40
bytes are its fields, printed in order. The scanner is described by the pieces into which it cuts the stream. In one
call `foundDatagram` stays set after the first header, so later windows are judged by their checksum alone; the greedy
leftmost scan is therefore met exactly under a condition on the buffers, which is given, with a stream that violates
it.

**Xbus and firmware update** (`Xbus`, `XbusParsers`, `XbusStreams`, `FwImage`, `FwHeaders`, `FwMachine`, `FwDialogue`,
`FwUpdate`, `FwWire`). The incremental parser is compared, on every byte sequence, with a parser that sees whole
messages. The updater is a state machine over a file; on a well-formed file it transmits exactly the bytes behind the
section headers, and both the dialogue that succeeds and the answers that make it fail are given. A file is well
formed when, section by section, the header is complete, the address length is positive, the slice size is positive,
divides the page size and fits the transmit buffer, every section has at least one page, only the last announces no
page count, and the file ends with its last page.

**Thrusters** (`RpmToGain`, `Thrusters`, `ThrusterSafety`, `ThrusterTelemetry`, `CanDriver`). Callbacks and command
ticks may come in any order. Voltages, gains and times are real numbers.

**MS5837** (`BitwiseIntegers`, `Iteration`, `Crc4`, `Crc4Bursts`, `Crc4Division`, `Ms5837`). Python's integers are
natural numbers without a bound; exclusive or, shifts and masks of low bits are functions on their binary digits.

## Readings and assumptions

- Task ids are not exhausted: a run adds fewer than 2^32 - 1 tasks (`Enabled`). Reporting is done by the worker to
  which the task was handed, so only an executing task is reported complete or paused.
- `crc_t` is at least 32 bits wide and masked to 32 after every step, so a 32-bit word is exact. The table is laid out in
  sixteen rows of sixteen.
- Inertial values are kept as the 32-bit patterns that the code reinterprets as floats, the temperature as its 16-bit
  pattern.
- A failed or empty read is an empty chunk. A read delivers at most 40 bytes.
- `XbusParser.InsertByte` requires that the parser has not overflowed: the original stores the byte before it looks at
  that state, one cell behind the buffer. After a message the caller must start the parser anew; without that, later
  bytes land on the checksum, and the model says so.
- The slice count of a page header is copied from memory low byte first, as on a little-endian host.
- `np.roots` is taken as a function that returns the real roots, in any order, and none for the zero polynomial.
- `esc_count` is at least 8; with fewer, start-up fails on the first mapping entry that does not fit. Indices above 7 keep the
  initial place 0 and sign +1, so they repeat the command of setpoint 0.

Where the code and its own words differ, the model follows the code:

- `addTask` promises that a task is not started until the other has completed; it is also released when the other is
  cancelled, and at once when the other is no longer in the pool.
- The watchdog callback says that any state but "continue" is treated as a kill; only the string "kill" is, and other
  strings are ignored.
- `tryReadingNewPacket` says that bytes are removed until the buffer begins with the header; after a failed checksum it no
  longer looks for one within the same call.
- `reportTaskPaused` says that the task goes to the end of the queue; it does so only if it need not wait for a task that
  is in the pool.

## Model

| member | source | states |
|---|---|---|
| `TaskPoolModel.StepKeepsInv` | tauv_xsens/lib/xspublic/xscommon/xsens_threadpool.cpp:367-637 | Every method of the pool keeps the invariant (ready, executing and delayed tasks disjoint and without duplicates; the index holds exactly the deque's ids; every delayed task is on the list of exactly one live task, once, and not its own) and changes who is in the pool by its own task alone. |
| `TaskPoolModel.ReleaseMoves` | tauv_xsens/lib/xspublic/xscommon/xsens_threadpool.cpp:573-583 | Releasing a list of dependents moves exactly those that are delayed to the end of the deque, each once. |
| `TaskPoolModel.CompleteDeparts` | tauv_xsens/lib/xspublic/xscommon/xsens_threadpool.cpp:564-585 | A completed task leaves every container; its delayed dependents, and nothing else, become ready, each once; its completion is signalled. |
| `TaskPoolModel.CancelDelayedDeparts` | tauv_xsens/lib/xspublic/xscommon/xsens_threadpool.cpp:526-531 | Cancelling a delayed task takes it out of every container and releases each of its dependents exactly once. |
| `TaskPoolModel.CancelReadyDeparts` | tauv_xsens/lib/xspublic/xscommon/xsens_threadpool.cpp:533-549 | Cancelling a queued task does the same, although the task is reported complete twice: the second report releases nothing, so the deque does not grow while it is searched. |
| `TaskPoolModel.ReleaseNothing` | tauv_xsens/lib/xspublic/xscommon/xsens_threadpool.cpp:573-583 | Reporting a task none of whose dependents is delayed changes no container. |
| `TaskPoolModel.WhatMoves` | tauv_xsens/lib/xspublic/xscommon/xsens_threadpool.cpp:514-585 | Whichever step makes a task leave, what it leaves behind is the same: the state the three lemmas above describe. |
| `TaskPoolRuns.EveryRunKeepsInv` | tauv_xsens/lib/xspublic/xscommon/xsens_threadpool.cpp:367-637 | In every state that any interleaving of the methods reaches from the empty pool, the invariant holds; in particular no delayed task is orphaned. |
| `TaskPoolRuns.FindsExactlyTheLive` | tauv_xsens/lib/xspublic/xscommon/xsens_threadpool.cpp:472-492 | findTask finds exactly the tasks in the pool; the linear scan never finds one that the maps miss. |
| `TaskPoolRuns.CountsTheLive` | tauv_xsens/lib/xspublic/xscommon/xsens_threadpool.cpp:404-408 | count() is the number of tasks in the pool. |
| `TaskPoolRuns.Conservation` | tauv_xsens/lib/xspublic/xscommon/xsens_threadpool.cpp:404-408 | Over every run, count() grows by the tasks added less the tasks that left. |
| `TaskPoolRuns.GoneStaysGone` | tauv_xsens/lib/xspublic/xscommon/xsens_threadpool.cpp:367-637 | A task that has left never comes back under its id, so each leaves once. |
| `TaskPoolRuns.WaitPersistsInRuns` | tauv_xsens/lib/xspublic/xscommon/xsens_threadpool.cpp:564-637 | While both are in the pool, a waiting task keeps waiting for the same task, through any number of pauses and reschedulings of either. |
| `TaskPoolRuns.DependencyOrder` | tauv_xsens/lib/xspublic/xscommon/xsens_threadpool.cpp:380-390 | A task added after a live task is neither handed out nor executing in any later state in which that task is still in the pool, whatever happens in between. |
| `TaskPoolRuns.PauseOrder` | tauv_xsens/lib/xspublic/xscommon/xsens_threadpool.cpp:612-637 | The same for a task that pauses to wait for another live task. |
| `TaskPoolCancel.LeavesExactly` | tauv_xsens/lib/xspublic/xscommon/xsens_threadpool.cpp:227-270 | In every run: a worker's report takes its task out of the pool exactly if the exec finished or threw, or if the task was ever cancelled while it was executing. |
| `TaskPoolCancel.CancelledTaskLeaves` | tauv_xsens/lib/xspublic/xscommon/xsens_threadpool.cpp:514-522 | A cancellation reaches a task that is executing: whatever happens until its worker reports, and whatever the exec came to, the task leaves with that report and stays away. |
| `TaskPoolCancel.UnfinishedPauses` | tauv_xsens/lib/xspublic/xscommon/xsens_threadpool.cpp:264-270 | The report of a task that neither ended nor was told to stop makes it wait for the task that it named, or puts it back on the deque. |
| `TaskPoolCancel.HandsOutExactly` | tauv_xsens/lib/xspublic/xscommon/xsens_threadpool.cpp:589-602 | In every run: the front of the deque is handed out to whoever asks, unless the deque is empty or the latest of suspend and resume was suspend; then nothing is, and nothing changes. |
| `TaskPoolOrder.StaysAhead` | tauv_xsens/lib/xspublic/xscommon/xsens_threadpool.cpp:564-637 | Whoever is ahead on the ready deque stays ahead while it is ready, and whatever becomes ready comes behind all that is: added, paused or released. |
| `TaskPoolOrder.NoOvertaking` | tauv_xsens/lib/xspublic/xscommon/xsens_threadpool.cpp:589-602 | Over every run: as long as a ready task stays ready, nothing that was behind it, or became ready later, is handed out. |
| `TaskPoolOrder.ReleasedInOrder` | tauv_xsens/lib/xspublic/xscommon/xsens_threadpool.cpp:573-583 | Tasks that wait for the same task become ready in the order in which they began to wait. |
| `TaskPoolOrder.WhereAddedGoes` | tauv_xsens/lib/xspublic/xscommon/xsens_threadpool.cpp:380-395 | A new task is the last to wait for the named task if that is in the pool, and the last of the ready ones otherwise. |
| `TaskPoolOrder.WherePausedGoes` | tauv_xsens/lib/xspublic/xscommon/xsens_threadpool.cpp:612-637 | A paused task likewise, unless it names itself. |
| `TaskPoolProgress.StepMovesOwners` | tauv_xsens/lib/xspublic/xscommon/xsens_threadpool.cpp:367-637 | How each step changes who waits for whom: one wait is added by an addTask or a pause that names a live task, a departure removes the waits of and for the departed task, nothing else changes one. |
| `TaskPoolProgress.ClosesExactlyChains` | tauv_xsens/lib/xspublic/xscommon/xsens_threadpool.cpp:622-632 | In a graph of waits without a closed group, letting t wait for w makes one exactly when the waits from w lead to t. |
| `TaskPoolProgress.StandstillExactly` | tauv_xsens/lib/xspublic/xscommon/xsens_threadpool.cpp:589-602 | With nothing executing and something in the pool, the ready deque is empty exactly when all tasks of the pool wait for each other. |
| `TaskPoolProgress.StuckForever` | tauv_xsens/lib/xspublic/xscommon/xsens_threadpool.cpp:514-637 | Tasks that wait only for each other stay delayed in every run that cancels none of them. |
| `TaskPoolProgress.StuckExactlyByClosing` | tauv_xsens/lib/xspublic/xscommon/xsens_threadpool.cpp:612-637 | A pool in which no group of tasks waits only for itself gets such a group by a step if and only if the step is a pause that closes a chain of waits. |
| `TaskPoolProgress.DeadlockFreedom` | tauv_xsens/lib/xspublic/xscommon/xsens_threadpool.cpp:367-637 | In every run in which no pause closes a chain of waits, an idle pool that holds tasks has one ready. |
| `TaskPoolProgress.EarlierWaitsNeverDeadlock` | tauv_xsens/lib/xspublic/xscommon/xsens_threadpool.cpp:367-637 | In particular when every pausing task waits for a task with a lower id. |
| `TaskPoolProgress.TwoTasksCanBlock` | tauv_xsens/lib/xspublic/xscommon/xsens_threadpool.cpp:612-637 | Without such a condition it can happen: a concrete run of six steps after which two tasks wait for each other and nothing is ready or executing. |
| `TaskPoolWaiting.SignalledExactlyWhenGone` | tauv_xsens/lib/xspublic/xscommon/xsens_threadpool.cpp:564-585 | In every reachable state, completion has been signalled for exactly the tasks that have left the pool. |
| `TaskPoolWaiting.WokenWhenOwnerLeaves` | tauv_xsens/lib/xspublic/xscommon/xsens_threadpool.cpp:573-583 | No wake-up is lost: the step that makes a task leave puts whatever waited for it on the ready deque, once. |
| `TaskPoolWaiting.WaiterIsRight` | tauv_xsens/lib/xspublic/xscommon/xsens_threadpool.cpp:795-806 | With any pool steps between any two of its checks: once the waiter's list is empty, every listed task that had been added when the waiter started has left the pool. |
| `TaskPoolWaiting.DroppedAreGone` | tauv_xsens/lib/xspublic/xscommon/xsens_threadpool.cpp:795-806 | At every moment of such a run the waiter has dropped ids from the front only, and each dropped id that had been issued is gone. |
| `TaskPoolWaiting.ExecIsChecks` | tauv_xsens/lib/xspublic/xscommon/xsens_threadpool.cpp:795-806 | One undisturbed call of exec is a series of such checks, so the two lemmas above apply to it. |
| `ThreadPool.Pool.constructor` | tauv_xsens/lib/xspublic/xscommon/xsens_threadpool.cpp:329-335 | A new pool is the model's empty pool. |
| `ThreadPool.Pool.FindTask` | tauv_xsens/lib/xspublic/xscommon/xsens_threadpool.cpp:472-492 | The lookups in the three maps and the linear scan return a task exactly when the model has it, and it is the task with that id. |
| `ThreadPool.Pool.DoesTaskExist` | tauv_xsens/lib/xspublic/xscommon/xsens_threadpool.cpp:507-510 | True exactly for the tasks in the pool. |
| `ThreadPool.Pool.Count` | tauv_xsens/lib/xspublic/xscommon/xsens_threadpool.cpp:404-408 | The count of the model. |
| `ThreadPool.Pool.AddTask` | tauv_xsens/lib/xspublic/xscommon/xsens_threadpool.cpp:367-400 | In place: the step AddTask of the model; returns the id it has given out. |
| `ThreadPool.Pool.ReportTaskComplete` | tauv_xsens/lib/xspublic/xscommon/xsens_threadpool.cpp:564-585 | In place, with its loop over the dependents: the step ReportComplete of the model. |
| `ThreadPool.Pool.CancelTask` | tauv_xsens/lib/xspublic/xscommon/xsens_threadpool.cpp:514-550 | In place, with its three lookups and the search of the deque: the step CancelTask of the model. |
| `ThreadPool.Pool.CancelReady` | tauv_xsens/lib/xspublic/xscommon/xsens_threadpool.cpp:540-549 | The search of the deque, which may have grown at its end by the time the task is erased. |
| `ThreadPool.Pool.GetNextTask` | tauv_xsens/lib/xspublic/xscommon/xsens_threadpool.cpp:589-602 | In place: the step GetNextTask; returns nothing exactly when suspended or empty, else the front of the deque. |
| `ThreadPool.Pool.ReportTaskPaused` | tauv_xsens/lib/xspublic/xscommon/xsens_threadpool.cpp:612-637 | In place: the step ReportPaused of the model. |
| `ThreadPool.Pool.Suspend` | tauv_xsens/lib/xspublic/xscommon/xsens_threadpool.cpp:644-657 | In place: the step Suspend. |
| `ThreadPool.Pool.Resume` | tauv_xsens/lib/xspublic/xscommon/xsens_threadpool.cpp:662-666 | In place: the step Resume. |
| `ThreadPool.PooledThread.FinishTask` | tauv_xsens/lib/xspublic/xscommon/xsens_threadpool.cpp:227-276 | After one run of its task, whatever its outcome, the worker reports completion if it finished, threw or was told to stop, and a pause otherwise; its counters add up. |
| `ThreadPool.TaskCompletionWaiter.Exec` | tauv_xsens/lib/xspublic/xscommon/xsens_threadpool.cpp:795-806 | Drops the ids that are gone, up to the first that is not; true exactly when none is left. |
| `TaskPoolWaiting.WaiterPauses` | tauv_xsens/lib/xspublic/xscommon/xsens_threadpool.cpp:612-637 | A waiter that pauses on the first id that is left waits for that task if it is another one in the pool, and is ready again otherwise. |
| `TaskPoolWaiting.WaiterIsNotRunBefore` | tauv_xsens/lib/xspublic/xscommon/xsens_threadpool.cpp:795-816 | After an exec that answered false, and the pause that follows, the waiter is neither handed out nor executing in any later state in which the task it stopped at is still in the pool, whatever happens in between. |
| `TaskPoolWaiting.OwnIdIsNeverDropped` | tauv_xsens/lib/xspublic/xscommon/xsens_threadpool.cpp:795-816 | A waiter whose own id comes first on its list never gets past it: exec drops nothing, and each pause puts the waiter back on the ready deque. |
| `ThreadPool.TaskCompletionWaiter.NeedToWaitFor` | tauv_xsens/lib/xspublic/xscommon/xsens_threadpool.cpp:811-816 | What a pause of the waiter is called with, as in the three lemmas above. |
| `ThreadPool.TaskCompletionWaiter.RunBy` | tauv_xsens/lib/xspublic/xscommon/xsens_threadpool.cpp:227-276 | A worker's run of the waiter: exec, and then in the pool either the report of completion or exactly the pause of the lemmas above. |
| `ThreadPool.PooledThread.FetchTask` | tauv_xsens/lib/xspublic/xscommon/xsens_threadpool.cpp:275-275 | The worker takes the next task, which is executing in the pool from then on. |
| `CircularBuffers.PushAllKeepsNewest` | tauv_kvh/KVH_1775_IMU_driver/circular_buffer.h:69-81 | A bounded drop-oldest queue holds the newest elements in order, whatever is pushed. |
| `CircularBuffers.CircularBuffer.Add` | tauv_kvh/KVH_1775_IMU_driver/circular_buffer.h:69-81 | On the ring: push on that queue, dropping the oldest element when full. |
| `CircularBuffers.CircularBuffer.Remove` | tauv_kvh/KVH_1775_IMU_driver/circular_buffer.h:96-102 | On the ring: pop from that queue; nothing when empty. |
| `CircularBuffers.CircularBuffer.Get` | tauv_kvh/KVH_1775_IMU_driver/circular_buffer.h:88-90 | The oldest element. |
| `CircularBuffers.CircularBuffer.Reset` | tauv_kvh/KVH_1775_IMU_driver/circular_buffer.h:104-109 | The empty queue, and cleared cells. |
| `CircularBuffers.CircularBuffer.Mod` | tauv_kvh/KVH_1775_IMU_driver/circular_buffer.h:140-142 | The remainder brings an index that was just advanced back to its cell. |
| `CircularBuffers.CircularBuffer.EndReached` | tauv_kvh/KVH_1775_IMU_driver/circular_buffer.h:29-62 | The iterator meets end() exactly after it has passed every element, also when the ring is full and wrapped, and points at the i-th element of the queue after i steps. |
| `CircularBuffers.CircularBuffer.Collect` | tauv_kvh/KVH_1775_IMU_driver/circular_buffer.h:29-62 | A loop from begin to end visits exactly the queue, in order, up to where it is left. |
| `PolyDivision.ClearedExactlyByItself` | tauv_kvh/KVH_1775_IMU_driver/crc.c:72-82 | Up to 32 further bits clear the CRC register exactly when they spell its leading bits and the rest of it is clear already. |
| `PolyDivision.BurstChangesRemainder` | tauv_kvh/KVH_1775_IMU_driver/crc.c:72-82 | No burst error of at most 32 bits, at any bit offset of a message of any length, leaves the remainder unchanged. |
| `PolyDivision.DivideLinear` | tauv_kvh/KVH_1775_IMU_driver/crc.c:72-82 | The difference of two divisions is the division of the difference. |
| `PolyDivision.StartIsChangeOfFirst` | tauv_kvh/KVH_1775_IMU_driver/crc.c:72-82 | What the register starts with acts like a change of the first 32 bits of the message. |
| `Crc32.TableEntry` | tauv_kvh/KVH_1775_IMU_driver/crc.c:27-70 | Each of the 256 table entries is what eight bit-serial steps make of its index. |
| `Crc32.CrcIsRemainder` | tauv_kvh/KVH_1775_IMU_driver/crc.c:27-82 | For every start value and every byte string, the table-driven CRC is the remainder of bit-serial division by 0x04c11db7. |
| `Crc32.StartInvertsFirst` | tauv_kvh/KVH_1775_IMU_driver/crc.h:73-76 | With the start value of the driver, the checksum is the remainder of plain division, from an empty register, of the data with its first four bytes inverted. |
| `Crc32.CrcInPieces` | tauv_kvh/KVH_1775_IMU_driver/crc.c:72-82 | Updating in any pieces equals one update over the concatenation. |
| `Crc32.CrcUpdate` | tauv_kvh/KVH_1775_IMU_driver/crc.c:72-82 | The loop computes that CRC. |
| `KvhFrames.PassesExactlyAtZero` | tauv_kvh/KVH_1775_IMU_driver/driver.cpp:115-117 | A 40-byte frame passes the checksum test exactly when the register, run over all 40 bytes, ends at zero. |
| `KvhFrames.PassesExactlyIfDivisible` | tauv_kvh/KVH_1775_IMU_driver/driver.cpp:115-117 | In other words: exactly when the generator polynomial divides the frame with its first four bytes inverted. |
| `KvhFrames.BurstDetected` | tauv_kvh/KVH_1775_IMU_driver/driver.cpp:115-117 | Changing a passing frame by any burst of at most 32 bits, at any bit offset, makes it fail. |
| `KvhFrames.FourByteChangeDetected` | tauv_kvh/KVH_1775_IMU_driver/driver.cpp:115-117 | Changing any of four consecutive bytes of a passing frame makes it fail. |
| `KvhFrames.HeaderRecognised` | tauv_kvh/KVH_1775_IMU_driver/driver.cpp:81-91 | The accumulated word equals the header constant exactly when the four bytes are the header. |
| `KvhScanner.ScanShape` | tauv_kvh/KVH_1775_IMU_driver/driver.cpp:66-132 | One call accepts at most one frame, as its last act; otherwise less than a datagram is left; its result says whether a checksum was computed; and the last one computed was good exactly when a frame was accepted. |
| `KvhScanner.CallLeavesLittle` | tauv_kvh/KVH_1775_IMU_driver/driver.cpp:66-132 | Between calls at most 39 bytes are held, so a read of at most 40 never overwrites data in the ring of 80. |
| `KvhScanner.RunExplains` | tauv_kvh/KVH_1775_IMU_driver/driver.cpp:66-132 | Unconditionally, over every run: the whole stream is accounted for by accepted frames, by single bytes discarded in front of a window that failed the header or the checksum, and by the rest that is still held. |
| `KvhScanner.NothingLost` | tauv_kvh/KVH_1775_IMU_driver/driver.cpp:66-132 | Put together, these pieces and the rest are the stream, byte for byte. |
| `KvhScanner.ChunkingDoesNotMatter` | tauv_kvh/KVH_1775_IMU_driver/driver.cpp:66-132 | If every window with a good checksum starts with the header, the frames accepted over a run, with their places, are those of the greedy leftmost scan of the whole stream, however it was cut into reads of at most 40 bytes. |
| `KvhScanner.CleanStreamIsAccepted` | tauv_kvh/KVH_1775_IMU_driver/driver.cpp:66-132 | With no such condition: a stream of genuine frames, and perhaps the beginning of another, is accepted frame by frame, each at its place, however it was cut into reads of at most 40 bytes; what is left is that beginning. |
| `KvhScanner.GreedyIffNeverDeceived` | tauv_kvh/KVH_1775_IMU_driver/driver.cpp:72-128 | For every stream and every way of reading it, the accepted frames are the greedy ones if and only if no call met a buffer in which a headerless window with a good checksum lies behind a header with no genuine frame in front of it. |
| `KvhScanner.CallDeceived` | tauv_kvh/KVH_1775_IMU_driver/driver.cpp:72-128 | One call accepts a frame without a header if and only if its buffer is of that kind. |
| `KvhRuns.RunCanBeDeceived` | tauv_kvh/KVH_1775_IMU_driver/driver.cpp:72-128 | Such streams exist for the real header and checksum: two reads after which the driver has accepted what no greedy scan accepts. |
| `KvhDriver.ParseUnsigned` | tauv_kvh/KVH_1775_IMU_driver/datagram_parser.cpp:12-19 | Accumulates bytes most significant first, and moves the cursor past them. |
| `KvhDriver.ParseDatagram` | tauv_kvh/KVH_1775_IMU_driver/datagram_parser.cpp:37-59 | The fields that are read from a frame with the header are those that, printed in the order of the format, make up the frame; nominal exactly for status 0x77; the cursor ends behind the last field. |
| `KvhDatagrams.PrintedIsRead` | tauv_kvh/KVH_1775_IMU_driver/datagram_parser.cpp:37-59 | Round trip: for all field values, the 40 bytes printed from header, gyro, accelerations, timestamp, status, counter, temperature and CRC are read as exactly these values. |
| `KvhDatagrams.ReadIsPrinted` | tauv_kvh/KVH_1775_IMU_driver/datagram_parser.cpp:37-59 | And every 40 bytes with the header are such a print. |
| `KvhDriver.CalculateChecksum` | tauv_kvh/KVH_1775_IMU_driver/driver.cpp:134-145 | The CRC of the first 36 bytes, computed one byte at a time. |
| `KvhDriver.Driver.ReadBytes` | tauv_kvh/KVH_1775_IMU_driver/serial_unix.cpp:181-198 | What the port delivered is pushed behind what the ring holds, which drops its oldest bytes where there is no room. |
| `KvhDriver.Driver.TryReadingNewPacket` | tauv_kvh/KVH_1775_IMU_driver/driver.cpp:66-132 | In place, with its nested loops: the ring keeps what the scan leaves over, the result says whether a checksum was computed, and the fields describe the last datagram whose checksum was. |
| `KvhDriver.Driver.SeekHeader` | tauv_kvh/KVH_1775_IMU_driver/driver.cpp:76-96 | The inner loop drops bytes until the ring begins with the header or holds less than a datagram, and is skipped once a header was found. |
| `Xbus.EncodeIsWellFormed` | tauv_xsens/lib/xspublic/xscommon/xbus.c:71-164 | An encoded message measures itself, passes the checksum test, and gives back its bus id, message id and payload, for both length encodings. |
| `Xbus.EncodedBytes` | tauv_xsens/lib/xspublic/xscommon/xbus.c:71-164 | Byte by byte: 0xfa, bus id, message id, the length in one byte below 255 and in two bytes, high byte first, behind 0xff otherwise, the payload, and a last byte with which all behind the first add up to a multiple of 256. |
| `Xbus.GetPayloadLength` | tauv_xsens/lib/xspublic/xscommon/xbus.c:73-84 | The length that the message's field spells, in either encoding. |
| `Xbus.SetPayloadLength` | tauv_xsens/lib/xspublic/xscommon/xbus.c:88-98 | Writes the field that spells the length and leaves every other byte alone. |
| `Xbus.Message` | tauv_xsens/lib/xspublic/xscommon/xbus.c:102-108 | Writes the header and leaves every other byte alone. |
| `Xbus.GetRawLength` | tauv_xsens/lib/xspublic/xscommon/xbus.c:112-121 | The length of the whole message. |
| `Xbus.InsertChecksum` | tauv_xsens/lib/xspublic/xscommon/xbus.c:143-152 | Writes the negated sum of the bytes between preamble and checksum into the last byte, and nothing else. |
| `Xbus.VerifyChecksum` | tauv_xsens/lib/xspublic/xscommon/xbus.c:156-164 | True exactly when the bytes behind the preamble add up to a multiple of 256. |
| `Xbus.BuiltMessage` | tauv_xsens/lib/xspublic/xscommon/xbus.c:102-152 | Header, payload and inserted checksum together are the encoded message. |
| `XbusParsers.OneMore` | tauv_xsens/lib/xspublic/xscommon/xbusparser.c:83-127 | The parser's running sum, length and offset keep describing the bytes since the preamble, also where the 16-bit sum wraps. |
| `XbusParsers.XbusParser.InsertByte` | tauv_xsens/lib/xspublic/xscommon/xbusparser.c:56-158 | In place, byte by byte: state and result are those of a machine that looks only at the bytes since the last accepted preamble and asks whether they are as many as their own header says, and balanced. |
| `XbusStreams.IncrementalIsWholeMessage` | tauv_xsens/lib/xspublic/xscommon/xbusparser.c:56-158 | On every byte sequence, up to the first message or overflow, the incremental parser ends as a parser does that sees the whole stream: skip to a preamble, measure the message there, check it, go on behind it if it does not add up. |
| `XbusStreams.ResultTellsTheStep` | tauv_xsens/lib/xspublic/xscommon/xbusparser.c:56-158 | In any state, the result of a byte says exactly where the parser has come from and got to: message, overflow, spurious byte, preamble, checksum error, or collecting on. |
| `XbusStreams.LateBytesOverwrite` | tauv_xsens/lib/xspublic/xscommon/xbusparser.c:56-158 | Without a new start after a message, every later byte takes the place of the checksum and is answered as if it completed the message. |
| `XbusStreams.EncodedMessageIsReceived` | tauv_xsens/lib/xspublic/xscommon/xbusparser.c:56-158 | Round trip: an encoded message, behind any bytes that are not a preamble, is reported exactly at its last byte with the right size and an identical buffer, whenever it fits. |
| `XbusStreams.EncodedMessageResults` | tauv_xsens/lib/xspublic/xscommon/xbusparser.c:56-158 | Every byte of it is answered: preamble found, then nothing to report, then the message. |
| `XbusStreams.AllMessagesAreReceived` | tauv_xsens/lib/xspublic/xscommon/xbusparser.c:41-158 | With a new start after every message, any sequence of encoded messages is received message by message, unchanged and in order. |
| `FwImage.TransferCarriesTheFile` | tauv_xsens/lib/xspublic/xscommon/fwupdate.c:236-315 | On a well-formed file, the commands of a transfer carry every byte behind the section headers exactly once and in order. |
| `FwImage.TiledIffDivisible` | tauv_xsens/lib/xspublic/xscommon/fwupdate.c:311-311 | The slices of a page tile it exactly when the slice size divides the page size. |
| `FwHeaders.HeaderIsPrinted` | tauv_xsens/lib/xspublic/xscommon/fwupdate.c:173-220 | A complete header of any of the four formats, printed again from the fields that were read, is what the file holds: no field is lost or exchanged. |
| `FwHeaders.NumbersAreSpelled` | tauv_xsens/lib/xspublic/xscommon/fwupdate.c:116-168 | A number is read as its bytes spell it, high byte first, or as 0 if the file does not hold them all. |
| `FwHeaders.CountsFit` | tauv_xsens/lib/xspublic/xscommon/fwupdate.c:306-315 | A section announces as many pages as whole records fit its size; its slices make up the page. |
| `FwImage.SmallFileIsWellFormed` | tauv_xsens/lib/xspublic/xscommon/fwupdate.c:173-220 | Well-formed files exist: a header of 20 bytes with a page of two slices behind it, whatever the page holds. |
| `FwMachine.ExpectedStep` | tauv_xsens/lib/xspublic/xscommon/fwupdate.c:350-499 | With the expected acknowledgement, every step keeps the state of the transfer in order and decreases a lexicographic measure of bytes left and state; if it ends the update, it reports success. |
| `FwMachine.AnyStep` | tauv_xsens/lib/xspublic/xscommon/fwupdate.c:350-499 | Whatever message arrives, the state of the transfer stays in order. |
| `FwMachine.NothingGoesWrong` | tauv_xsens/lib/xspublic/xscommon/fwupdate.c:306-315 | In every such state, entering a section reads a complete header and divides by nonzero sizes, and a slice fits the transmit buffer. |
| `FwMachine.ExactTransmission` | tauv_xsens/lib/xspublic/xscommon/fwupdate.c:329-499 | A run in which the module always answers as expected ends in Idle with exactly one success and has sent exactly the transfer: every byte behind the section headers once and in order. |
| `FwMachine.AnyRunIsSafe` | tauv_xsens/lib/xspublic/xscommon/fwupdate.c:329-499 | Whatever the module answers: what was sent is a beginning of the transfer, there is never more than one verdict and none while the update is under way, and success is reported only when all was sent. |
| `FwMachine.FailsExactly` | tauv_xsens/lib/xspublic/xscommon/fwupdate.c:350-499 | An update is reported failed if and only if some message under the update's id, while it is under way, does not carry the acknowledgement that is due: 0x53 after the slices of a page, 0x52 otherwise. |
| `FwMachine.RefusalEnds` | tauv_xsens/lib/xspublic/xscommon/fwupdate.c:391-396 | Such a message ends the update: Idle, one more failure, nothing more sent or read. |
| `FwMachine.OthersDoNotFail` | tauv_xsens/lib/xspublic/xscommon/fwupdate.c:350-499 | Any other message is ignored or moves the transfer on, without a failure. |
| `FwMachine.StartIsRefused` | tauv_xsens/lib/xspublic/xscommon/fwupdate.c:329-344 | A start while an update is under way fails and disturbs nothing. |
| `FwMachine.SentOrAtEnd` | tauv_xsens/lib/xspublic/xscommon/fwupdate.c:236-274 | On any file, an address or a slice is sent if all of it is there; else nothing is, and the rest is read to the end of the file. |
| `FwDialogue.ExactDialogue` | tauv_xsens/lib/xspublic/xscommon/fwupdate.c:350-499 | The acknowledgements of a smooth update are a function of the transfer alone: one for each command, and three after the last slice of a page. |
| `FwDialogue.TheseAnswersSucceed` | tauv_xsens/lib/xspublic/xscommon/fwupdate.c:329-499 | A module that gives these acknowledgements, and no other, gets every byte behind the section headers, and the host one success. |
| `FwUpdate.FwUpdate.ReadXffHeader` | tauv_xsens/lib/xspublic/xscommon/fwupdate.c:173-220 | In place, field by field, in all four formats: the header at the read index; fields its version lacks keep their values. A number that the file breaks off in is read as 0 and marks the end of the file, and the read index stops there. |
| `FwUpdate.FwUpdate.SendHeader` | tauv_xsens/lib/xspublic/xscommon/fwupdate.c:236-252 | In place, through the transmit buffer: the page header of the model, or end of file. |
| `FwUpdate.FwUpdate.SendSlice` | tauv_xsens/lib/xspublic/xscommon/fwupdate.c:257-274 | In place, through the transmit buffer: the slice of the model, or end of file. |
| `FwUpdate.FwUpdate.EnterNewSection` | tauv_xsens/lib/xspublic/xscommon/fwupdate.c:306-315 | In place: the model's entry into a section, also one whose header breaks off, as long as its sizes can be divided by. |
| `FwUpdate.FwUpdate.Start` | tauv_xsens/lib/xspublic/xscommon/fwupdate.c:329-344 | In place: the model's start, or a failure while an update is under way. |
| `FwUpdate.FwUpdate.HandleXbus` | tauv_xsens/lib/xspublic/xscommon/fwupdate.c:350-499 | In place: the model's step for the message id and first payload byte of the message, on any file, up to a division by zero or an overrun of the transmit buffer. |
| `FwUpdate.FwUpdate.Transmit` | tauv_xsens/lib/xspublic/xscommon/fwupdate.c:225-231 | What is handed to the host is the encoded message of the command. |
| `FwWire.TransferArrives` | tauv_xsens/lib/xspublic/xscommon/fwupdate.c:225-301 | The incremental parser with a 300-byte buffer receives every message of a transfer as it was sent. |
| `FwWire.PayloadArrives` | tauv_xsens/lib/xspublic/xscommon/fwupdate.c:225-301 | And the payload of each received frame is the payload of the command. |
| `FwWire.PayloadIsUnderstood` | tauv_xsens/lib/xspublic/xscommon/fwupdate.c:225-301 | No two commands have the same payload: read back, each is itself, with the slice count low byte first. |
| `FwWire.CommandArrives` | tauv_xsens/lib/xspublic/xscommon/fwupdate.c:225-301 | A frame goes to the master device under the update's message id, and says its command. |
| `FwWire.TransferIsUnderstood` | tauv_xsens/lib/xspublic/xscommon/fwupdate.c:225-315 | End to end: the bytes of a transfer, taken apart by the incremental parser and read command by command, are the transfer, and carry the file without its section headers. |
| `RpmToGain.SpeedIsPolynomial` | tauv_dronecan/tauv_dronecan/rpm_to_gain.py:42-56 | The speed is one polynomial in gain and voltage, with the nine coefficients in their places. |
| `RpmToGain.DeadBandIsZero` | tauv_dronecan/tauv_dronecan/rpm_to_gain.py:48-49 | Strictly between -50 and 50 the gain is 0. |
| `RpmToGain.NonZeroExactly` | tauv_dronecan/tauv_dronecan/rpm_to_gain.py:48-69 | A gain is not 0 exactly if the speed is outside the dead band and the least admissible solution of its direction's equation exists and is positive; then it is that, with the sign of the speed. |
| `RpmToGain.GainIsLeastSolution` | tauv_dronecan/tauv_dronecan/rpm_to_gain.py:48-69 | Outside the dead band, the gain's magnitude is the least admissible gain at which the equations give exactly the wanted speed, or 0 if there is none; its sign is that of the speed. |
| `RpmToGain.GainInBounds` | tauv_dronecan/tauv_dronecan/rpm_to_gain.py:37-69 | The gain is within -8191 and 8191 for every speed and voltage. |
| `RpmToGain.GainIsDetermined` | tauv_dronecan/tauv_dronecan/rpm_to_gain.py:58-69 | It does not depend on the order in which the roots are listed, nor on repetitions. |
| `RpmToGain.AtMostTwoSolutions` | tauv_dronecan/tauv_dronecan/rpm_to_gain.py:44-46 | At most two gains give the same speed at one voltage. |
| `Thrusters.MappingIsPermutation` | tauv_dronecan/tauv_dronecan/mapping.py:1-41 | No two thrusters share a place in setpoints or an index on the bus. |
| `Thrusters.ArraysHoldMapping` | tauv_dronecan/tauv_dronecan/can_driver.py:72-78 | The arrays built in a loop over the mapping hold, at each thruster's bus index, its place and its sign. |
| `ThrusterSafety.EachThrusterGetsItsOwn` | tauv_dronecan/tauv_dronecan/can_driver.py:289-307 | Each thruster is sent the gain for its own place in the setpoint, negated if it runs in reverse. |
| `ThrusterSafety.DeadBandIsStill` | tauv_dronecan/tauv_dronecan/can_driver.py:325-356 | On the wire, over every interleaving: a thruster whose speed in the latest well-formed setpoint is strictly between -50 and 50 is sent 0. |
| `ThrusterSafety.TruncateTowardZero` | tauv_dronecan/tauv_dronecan/can_driver.py:354-354 | A command is the gain without its fraction. |
| `ThrusterTelemetry.TelemetryIsLatest` | tauv_dronecan/tauv_dronecan/can_driver.py:163-174 | In every run: one reading for each node heard of, and that is the node's latest report; earlier ones are forgotten. |
| `ThrusterTelemetry.AverageIsMean` | tauv_dronecan/tauv_dronecan/can_driver.py:197-200 | So the average voltage is the mean, over the distinct nodes heard of, of their latest reports, and 16 before the first. |
| `ThrusterTelemetry.LowExactly` | tauv_dronecan/tauv_dronecan/can_driver.py:228-250 | And a tick counts as low exactly if some node has reported and that mean is below the cutoff. |
| `ThrusterSafety.KillIsLatched` | tauv_dronecan/tauv_dronecan/can_driver.py:228-356 | Over every interleaving of callbacks and ticks, BIGARM is never set again once it is cleared. |
| `ThrusterSafety.KilledMeansOff` | tauv_dronecan/tauv_dronecan/can_driver.py:338-356 | Once BIGARM is cleared, every later broadcast is status 0 with all commands zero. |
| `ThrusterSafety.WireIsExactly` | tauv_dronecan/tauv_dronecan/can_driver.py:289-356 | Over every interleaving, what is broadcast is a function of the history: off when killed; else, if the latest well-formed setpoint was armed, status 255 and exactly its remapped, truncated gains at the voltage of its arrival; else zeros, with status 255 only by start-up or a later "continue". |
| `ThrusterSafety.NonZeroCommands` | tauv_dronecan/tauv_dronecan/can_driver.py:325-356 | A command that is not zero stems from the latest well-formed setpoint, which was armed and arrived while BIGARM was set. |
| `ThrusterSafety.CommandsInRange` | tauv_dronecan/tauv_dronecan/can_driver.py:338-356 | Every command ever broadcast is within -8191 and 8191. |
| `ThrusterSafety.KilledExactly` | tauv_dronecan/tauv_dronecan/can_driver.py:228-263 | With a clock that does not run backwards, BIGARM is cleared if and only if it was clear at the start, the watchdog said "kill", or there are two ticks, at least the hold time apart, such that every tick from the first to the second saw telemetry with an average below the cutoff; a recovery in between restarts the window. |
| `ThrusterSafety.TickKillsExactly` | tauv_dronecan/tauv_dronecan/can_driver.py:228-263 | A tick kills exactly when it completes such a window. |
| `ThrusterSafety.HealthyPackIsNotKilled` | tauv_dronecan/tauv_dronecan/can_driver.py:197-263 | If no ESC ever reports less than the cutoff, and the watchdog does not kill, BIGARM stays set. |
| `ThrusterSafety.StartupArmsExactly` | tauv_dronecan/tauv_dronecan/can_driver.py:131-137 | The driver starts armed, with all commands zero, exactly if BIGARM is set and the telemetry averages at least the start-up minimum. |
| `ThrusterSafety.RecordIsUpdate` | tauv_dronecan/tauv_dronecan/can_driver.py:163-174 | A status report changes the reading of its own node and of no other. |
| `ThrusterSafety.RefusedStartupIsOff` | tauv_dronecan/tauv_dronecan/can_driver.py:131-137 | Without telemetry at start-up, or with a low pack, everything ever broadcast is off. |
| `ThrusterSafety.ShutdownIsOff` | tauv_dronecan/tauv_dronecan/can_driver.py:374-379 | The last broadcast of a shutdown is off. |
| `CanDriver.CANDriver.constructor` | tauv_dronecan/tauv_dronecan/can_driver.py:64-137 | Builds the arrays from the mapping and takes the start-up decision. |
| `CanDriver.CANDriver.AvgEscVoltage` | tauv_dronecan/tauv_dronecan/can_driver.py:197-200 | The average of the recorded voltages, or 16 without telemetry. |
| `CanDriver.CANDriver.RemapThrusts` | tauv_dronecan/tauv_dronecan/can_driver.py:289-307 | The two comprehensions compute the model's remapped gains. |
| `CanDriver.CANDriver.OnEscStatus` | tauv_dronecan/tauv_dronecan/can_driver.py:163-174 | In place: the model's step EscStatus. |
| `CanDriver.CANDriver.WatchdogCallback` | tauv_dronecan/tauv_dronecan/can_driver.py:309-323 | In place: the model's step Watchdog. |
| `CanDriver.CANDriver.ThrusterCallback` | tauv_dronecan/tauv_dronecan/can_driver.py:325-336 | In place: the model's step Setpoint. |
| `CanDriver.CANDriver.CheckForUndervoltage` | tauv_dronecan/tauv_dronecan/can_driver.py:228-263 | In place: the model's undervoltage check. |
| `CanDriver.CANDriver.SendCommands` | tauv_dronecan/tauv_dronecan/can_driver.py:338-356 | In place: the model's step Tick, and exactly one more broadcast. |
| `CanDriver.CANDriver.DestroyNode` | tauv_dronecan/tauv_dronecan/can_driver.py:374-379 | Disarms, takes one more tick of the model, and broadcasts the state it leaves. |
| `Crc4.ShiftsAgree` | tauv_depth/tauv_depth/ms5837.py:240-244 | After any number of shifts within a byte, the low 16 bits of the unbounded integer are the contents of a 16-bit shift register. |
| `Crc4.RegisterAgrees` | tauv_depth/tauv_depth/ms5837.py:234-244 | So they are after any bytes. |
| `Crc4.CrcIsRegisterCrc` | tauv_depth/tauv_depth/ms5837.py:228-251 | So for all calibration words the returned nibble is the register's. |
| `Crc4.StoredNibbleIsIgnored` | tauv_depth/tauv_depth/ms5837.py:231-231 | It does not depend on the nibble stored in the first word. |
| `Crc4Division.CrcIsRemainder` | tauv_depth/tauv_depth/ms5837.py:228-251 | For all calibration words, the computed nibble is the one remainder of their division by x^4 + x + 1 over GF(2), as one number of 112 bits without the stored nibble, shifted by twelve. |
| `Crc4Division.AcceptedExactly` | tauv_depth/tauv_depth/ms5837.py:88-93 | So a sensor is accepted exactly if its words, with the stored nibble behind them, are a multiple of that polynomial. |
| `Crc4Bursts.BurstIsRejected` | tauv_depth/tauv_depth/ms5837.py:88-93 | If a sensor's words are accepted, all words are rejected that differ from them, read as one number of 112 bits, by any change within four neighbouring bits, also across two words, that leaves the stored nibble alone. |
| `Ms5837.MS5837.Crc4` | tauv_depth/tauv_depth/ms5837.py:228-251 | In place: returns that CRC, and leaves the list with its stored CRC cleared and a zero word appended. |
| `Ms5837.MS5837.Divide` | tauv_depth/tauv_depth/ms5837.py:234-244 | The outer loop over the sixteen bytes. |
| `Ms5837.MS5837.ShiftByte` | tauv_depth/tauv_depth/ms5837.py:240-244 | The inner loop of eight rounds. |
| `Ms5837.MS5837.Init` | tauv_depth/tauv_depth/ms5837.py:80-93 | Swaps the bytes of the seven words and accepts the sensor exactly when the stored nibble is the computed one; leaves the list of swapped words with the stored nibble cleared and a zero word behind them. |
| `Ms5837.SwapExchanges` | tauv_depth/tauv_depth/ms5837.py:87-87 | The low byte of a word moves up and its high byte down. |

## Left out

- ThreadPool.Pool.constructor: does not start worker threads; a worker is an object of its own that fetches from the pool.
- ThreadPool.Pool.AddTask: ids are not exhausted; the wrap-around to 1 of the id counter could hand out an id that is still in use.
- ThreadPool.Pool.CancelTask: without the optional wait for an executing task, which would block until other threads have taken steps.
- ThreadPool.Pool.Suspend: without the optional wait for busy threads, for the same reason.
- ThreadPool.PooledThread.FinishTask: without the call of `onError`; the fetch of the next task is `FetchTask`.
- KvhDriver.ParseDatagram: accelerations stay the bit patterns received, without the multiplication by `ACC_SCALE` in floating point.
- XbusParsers.XbusParser.InsertByte: no call after an overflow, where the original stores the byte one cell behind the buffer before it looks at the state.
- FwUpdate.FwUpdate.EnterNewSection: no sizes of zero, by which the original would divide.
- FwUpdate.FwUpdate.HandleXbus: neither these nor slices of more than 292 bytes, with which the original would overrun its buffer; `NothingGoesWrong` excludes both on well-formed files.
- CanDriver.CANDriver.constructor: no creation of the node and no discovery of ESCs; what they find is a parameter.
- CanDriver.CANDriver.OnEscStatus: of a report only the voltage is kept, on which the arming logic depends; nothing is published.
- Ms5837.MS5837.Init: no detection of the model, and no failure of the bus.
- OS threads, condition variables, priorities, `setPoolSize`, the pool's destructor, and the blocking halves of `cancelTask`, `suspend` and `waitForCompletion`: every method is one atomic step here.
- `onError` and the logging of exceptions in the worker loop; an exception is one of the outcomes of a run.
- Liveness under a fair scheduler: what is proved is that work is ready, not that a thread takes it.
- Serial, CAN and I2C input and output, reconnection, and error messages: reads are arbitrary chunks, sends are appended to a trace.
- The scaling of accelerations and all floating-point rounding, including that of `np.roots` and `np.isreal` at double roots.
- What a whole update does with a malformed firmware image: its single steps are modelled, the lemmas about whole runs assume `WellFormed`.
- 32-bit wrap-around of the updater's counters and read index: they stay below the size of the file.
- `Xbus_setBusId` and the other one-line accessors, except where a message is built.
- Discovery of ESCs, the node allocator, publishing and its rate limit, and all telemetry other than voltages.
- Conversion of setpoints from message and array types to lists.
- Pressure and temperature compensation of the MS5837.
- `HighRateInterpolator`, `XsensTimeHandler`, the servo and DVL drivers, the journaller and the ROS nodes: not part of this model.
