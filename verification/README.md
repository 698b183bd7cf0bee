# RRDtool 1.4.9: a model of its stateful parts, with proofs

Round-robin databases keep a fixed number of rows per archive and overwrite the oldest. This project models the parts of
RRDtool that keep state or compute, and proves what they promise. All of it is Dafny 4.11; `dafny verify dfyconfig.toml`
checks the whole project.

| files | what they model |
|---|---|
| `Cache`, `CacheQueue`, `Daemon`, `DaemonProcess` | rrdcached: the cache, its linked write queue on the heap, and the daemon as a machine whose steps are its critical sections |
| `DaemonRuns`, `DaemonSchedule`, `DaemonJournal`, `DaemonFlush` | what holds over every run of that machine: conservation, order, when files are written, crash recovery, FLUSH, shutdown |
| `JournalText`, `DaemonCrash` | the journal as text; what buffer and rotation leave of it when the daemon crashes or is stopped |
| `DaemonWitness`, `CrashWitness` | runs from the start that show where the guarantees end |
| `Wire` | escaping, framing and decoding between client and daemon |
| `Resize`, `Fetch`, `FetchChoice`, `ResizeFetch`, `Reduce`, `ReduceLaws`, `GraphFetch` | archives as rings of rows: growing and shrinking, choosing one, reading a time range, what a fetch sees of a resized file, consolidating in place |
| `Rpn`, `RpnLaws`, `Cdef`, `CdefLaws` | the RPN stack machine, the laws of its operators, and the evaluation of a CDEF over sources of different steps |
| `RpnCompact`, `RpnText` | the stored and the printed form of RPN programs |
| `HoltWinters`, `HoltWintersLaws`, `Smoother` | aberrant behaviour detection: the four coupled archives, what they learn and predict, FAILURES, and the seasonal moving average |
| `Diff`, `GetOpt` | exact subtraction of long counters as text; option permutation |
| `Value` | values, slices, rows of cells, archives and the arithmetic the others share |

Code that changes memory is modelled as methods and classes that change memory: the intrusive queue with its links and flags,
the stack array, the row buffer that is consolidated onto itself, the ring queue of the smoother, argv. Each such method is
tied to a function on values, and the promises are proved about these functions and about all runs.

Doubles are reals with an unknown value, and with infinities for the RPN machine. Times and counts are integers; where the
machine width decides something (the row count of the reduction, the short of stored programs) it is written out.

## What the proofs found

Where a promise does not hold of the code in general, the exact condition is proved.

- The manual promises that after a crash all updates that had not been written are recovered (`doc/rrdcached.pod:173-185`).
  `journal_write` only prints to a buffered stream that nothing flushes before the file is closed, so a crash leaves a part of
  the journal that may end in the middle of a line (`JournalText.CutEntries`, `DaemonCrash.CrashReplay`). What is replayed is
  what would have been replayed at an earlier moment of the run (`DaemonCrash.CrashIsEarlier`), and it is right exactly if the
  records in the buffer change nothing for the file (`DaemonCrash.CrashExactIff`). A value that was answered OK can be lost, and
  a batch that was written can come back (`CrashWitness.BufferedUpdateIsLost`, `CrashWitness.WrittenBatchComesBack`).
- A closed journal, as the fast shutdown leaves it, is exact if rotation has not removed a record that still matters
  (`DaemonCrash.FastShutdownIff`). It does so when a writer is busy with a file for two flush intervals, because
  pending values are not journaled again (`CrashWitness.RotationLosesPending`); and a value that was refused can come back
  (`CrashWitness.RefusedComesBack`).
- Even with all records printed (`DaemonJournal`, `DaemonWitness`), a "wrote" record also cancels values that were accepted
  after the batch was dequeued, so they are lost from the journal although they are pending. The same happens between a FORGET
  and its record, which is written after the lock is released. Evicting an idle item forgets its last timestamp without a
  record.
- A shutdown with flush loses an UPDATE that a connection still has in its read buffer, if its file has been drained and its
  write interval has not passed: it is answered OK, not queued, and the journals are removed (`DaemonFlush.DrainingIff`,
  `DaemonFlush.CleanShutdown`, `DaemonWitness.DrainedUpdateIsLost`).
- The journal is read through a buffer of 4096 characters (`JournalText.JournalRoundTrip`). An UPDATE whose line is longer is
  accepted and lost after a crash. The longest request of the client library is one byte too long
  (`JournalText.FullRequest`). A FORGET record holds the file name unescaped but is decoded, so that names with blanks and
  backslashes are not forgotten (`DaemonWitness.ForgottenComesBack`).
- The manual promises the answer to FLUSH for after the file has been dequeued. That is so in every continuation exactly if no
  writer holds a batch of the file, in any stage, when the client asks (`DaemonFlush.FlushGuarantee`,
  `DaemonFlush.FlushWokenEarly`); with one writer it decides every single run (`DaemonFlush.FlushExactly`).
- An UPDATE of a file that is not in the cache, while the daemon goes to SHUTDOWN, returns with the cache lock held; nothing is
  written any more and the daemon does not end (`DaemonWitness.HangsAtShutdown`).
- The check in `reduce_data` that "something is REALLY WRONG" can fail: for a range strictly inside one destination interval,
  unless the factor divides 2^64 (`Reduce.ReduceData`, `Reduce.SanityCheckFails`).
- PREV of a source reads in front of the data exactly if the source has no whole interval before the one of the second time
  step; its rows must be coarser than the CDEF for that, and it must not start early enough (`Cdef.PrevReadable`).
- Printed RPN programs do not read back when a constant is last, when INF is not last, or with PREV of a source or COUNT, which
  print as nothing (`RpnText.PrintParse`).
- DEG2RAD multiplies by 0.0174532952, which lacks a digit of a 180th of half a turn: an angle that goes through RAD2DEG and back
  has grown by one part in six millions (`RpnLaws.Angles`).
- `rpn_parse` does not look at what closes the name in PREV(name) (`RpnText.StepPrev`).
- `hw_calculate_slope` does not take into account for how long values were unknown, so that the first value after a gap of n
  makes the learned slope of an exactly predicted signal too steep by beta times n slopes (`HoltWintersLaws.SlopeAfterGap`).
- `update_failures` looks up the deviation by the index of the SEASONAL instead of the DEVSEASONAL archive
  (`HoltWinters.Rrd.FailuresOrder`).
- The multiplicative method depends on the order of the archives when its first value is not positive
  (`HoltWinters.Rrd.UpdateAberrantCdps`), and loses its intercept when a seasonal coefficient is not positive
  (`HoltWintersRuns.StepInv`, `HoltWintersRuns.LosesInFour`).
- For the last rows of a season the smoother averages with values it has already smoothed (`Smoother.SmoothedMean`).
- `queue_isempty` takes a full queue for an empty one (`Fifo.Queue.IsEmpty`).
- `rrd_diff` is defined for numbers of up to 28 digits although its length check admits 30 (`Diff.RrdDiff`,
  `Diff.TwentyNineDigits`).
- `rpn_parse` writes through a null pointer for the empty text (`RpnText.Parse`).

## Model

| member | source | states |
|---|---|---|
| `CacheModel.DueMembers` | SERRDtool-1.4.9/src/rrd_daemon.c:771-800 | The tree traversal queues exactly the unqueued items that have values and are due, each once. |
| `CacheModel.RemoveMembers` | SERRDtool-1.4.9/src/rrd_daemon.c:658-681 | Taking a file off the queue removes it and nothing else, and keeps the queue free of repetitions. |
| `CacheModel.AbsorbsFront` | SERRDtool-1.4.9/src/rrd_daemon.c:1413-1451 | UPDATE accepts exactly the longest front of its arguments with strictly increasing timestamps, and ends in an error reply exactly at one that does not increase or has no timestamp. |
| `CacheQueue.Cache.Unlink` | SERRDtool-1.4.9/src/rrd_daemon.c:658-681 | Unlinking in place: the remaining items keep their order, their links mirror each other, and the removed item has null links. |
| `CacheQueue.Cache.RemoveFromQueue` | SERRDtool-1.4.9/src/rrd_daemon.c:658-681 | The queue loses exactly this item (nothing if it was not queued); flag, links and length counter follow; the whole representation invariant is kept. |
| `CacheQueue.Cache.AddFront` | SERRDtool-1.4.9/src/rrd_daemon.c:720-736 | An unqueued item becomes the head; all others keep their order and the invariant holds. |
| `CacheQueue.Cache.AddBack` | SERRDtool-1.4.9/src/rrd_daemon.c:737-754 | An unqueued item becomes the tail; all others keep their order and the invariant holds. |
| `CacheQueue.Cache.EnqueueCacheItem` | SERRDtool-1.4.9/src/rrd_daemon.c:711-764 | The linked queue after the call is the abstract `Enqueue`: nothing without values, HEAD moves to the front, TAIL never moves a queued item. |
| `CacheQueue.Cache.WipeAndRemove` | SERRDtool-1.4.9/src/rrd_daemon.c:941-942 | Clearing the values and dequeuing, on the heap, is the abstract `Wipe`. |
| `CacheQueue.Cache.FreeCacheItem` | SERRDtool-1.4.9/src/rrd_daemon.c:686-705 | Freeing an item takes it off tree and queue and leaves the others linked as they were. |
| `CacheQueue.Cache.TakeHead` | SERRDtool-1.4.9/src/rrd_daemon.c:925-942 | A queued head always has values (the assertion in the writer holds); its values are returned and it is wiped and dequeued. |
| `CacheQueue.Cache.UpdateItem` | SERRDtool-1.4.9/src/rrd_daemon.c:1409-1453 | Creating or finding the item, absorbing the arguments and queuing it is the abstract `Update`. |
| `CacheQueue.Cache.FlushCallback` | SERRDtool-1.4.9/src/rrd_daemon.c:771-800 | One visit of the traversal queues a due item, marks an idle empty one, and leaves every other alone. |
| `CacheQueue.Cache.Traverse` | SERRDtool-1.4.9/src/rrd_daemon.c:771-840 | The traversal over the whole tree collects exactly the idle items and appends the due ones in tree order. |
| `CacheQueue.Cache.EvictAll` | SERRDtool-1.4.9/src/rrd_daemon.c:825-837 | Eviction removes exactly the collected items and keeps the queue. |
| `CacheQueue.Cache.FlushOldValues` | SERRDtool-1.4.9/src/rrd_daemon.c:802-840 | Traversal and eviction together are the abstract `FlushOld`. |
| `DaemonProcess.Daemon.RecordForget` | SERRDtool-1.4.9/src/rrd_daemon.c:1282-1285 | The FORGET record refines its step. As soon as it is kept, replay brings back nothing of the file, and of every other file as much as before, for names that the record can be read back with. |
| `DaemonFlush.SignalsRun` | SERRDtool-1.4.9/src/rrd_daemon.c:290-322 | Over every run, I/O errors of the journal apart: whether values are flushed at shutdown is decided by the last USR1 or USR2 (INT and TERM keep it), the phase never goes back, and after any of the four signals the daemon is not running any more. |
| `DaemonProcess.Daemon.Hand` | SERRDtool-1.4.9/src/rrd_daemon.c:946-953 | Handing the batch over refines its step and moves it: for every file, what is in flight together with what was handed over stays the same multiset. |
| `DaemonProcess.Daemon.RecordWrote` | SERRDtool-1.4.9/src/rrd_daemon.c:955-955 | The "wrote" record refines its step. As soon as it is kept, replay brings back nothing of the file that came before it, not even what is still pending, and of every other file as much as before. |
| `DaemonProcess.Daemon.constructor` | SERRDtool-1.4.9/src/rrd_daemon.c:1999-2091 | A start replays the journal into the linked cache and reaches an initial state of the machine. |
| `DaemonProcess.Daemon.HandleUpdate` | SERRDtool-1.4.9/src/rrd_daemon.c:1314-1473 | The handler on the linked cache, in all its ways: a file that is neither known nor writable changes nothing; after SHUTDOWN an unknown file gets its item and the handler returns with the lock held; otherwise the UPDATE step, journal record first, then exactly the accepted values. What is journaled is not defined if and only if a record is to be written and the arguments have CMD_MAX characters or more. |
| `DaemonProcess.Daemon.JournalClose` | SERRDtool-1.4.9/src/rrd_daemon.c:1854-1864 | Closing the journal refines its step, and every record printed that rotation has not removed is then kept. |
| `DaemonProcess.Daemon.JournalRotate` | SERRDtool-1.4.9/src/rrd_daemon.c:1913-1945 | Rotation refines its step: the printed records of the old set are kept whole, and those of the set before it are gone. |
| `DaemonProcess.Daemon.HandleForget` | SERRDtool-1.4.9/src/rrd_daemon.c:1278-1280 | The locked part of FORGET refines its step: the item leaves tree and queue and its waiters are woken. |
| `DaemonProcess.Daemon.FlushFile` | SERRDtool-1.4.9/src/rrd_daemon.c:1098-1124 | FLUSH refines its step: nothing pending returns at once, otherwise the item goes to the head and the client waits. |
| `DaemonProcess.Daemon.FlushOldValues` | SERRDtool-1.4.9/src/rrd_daemon.c:802-840 | FLUSHALL and the periodic tick refine their steps. |
| `DaemonProcess.Daemon.EndFlushThread` | SERRDtool-1.4.9/src/rrd_daemon.c:885-888 | The end of the flush thread refines the shutdown step. |
| `DaemonProcess.Daemon.Take` | SERRDtool-1.4.9/src/rrd_daemon.c:920-944 | The first critical section of a writer refines the dequeue step. |
| `DaemonProcess.Daemon.Done` | SERRDtool-1.4.9/src/rrd_daemon.c:957-963 | The second critical section wakes whoever waits on the item that now has this name. |
| `DaemonProcess.Daemon.Leave` | SERRDtool-1.4.9/src/rrd_daemon.c:899-900 | A writer leaves exactly when the machine allows it: SHUTDOWN, and the queue empty or no flush wanted. |
| `DaemonProcess.ReplayAll` | SERRDtool-1.4.9/src/rrd_daemon.c:1999-2091 | Handing every entry that can be read back to its handler rebuilds values and timestamps as the function `Replay` does. |
| `DaemonProcess.RebuiltStep` | SERRDtool-1.4.9/src/rrd_daemon.c:1478-1500 | One replayed entry keeps the cache equal to `Replay`, with nothing queued. |
| `DaemonRuns.QueueStep` | SERRDtool-1.4.9/src/rrd_daemon.c:658-981 | Every step keeps: queued files are distinct, are in the tree and have at least one pending value. |
| `DaemonRuns.EnqueueOrder` | SERRDtool-1.4.9/src/rrd_daemon.c:711-764 | Enqueuing leaves the relative order of all other files as it was; HEAD ends in front, TAIL at the end or where it was. |
| `DaemonRuns.ConservedStep` | SERRDtool-1.4.9/src/rrd_daemon.c:895-981 | Every step keeps the count: each accepted value is in exactly one of pending, in flight, handed over, dropped by FORGET. |
| `DaemonRuns.OrderedStep` | SERRDtool-1.4.9/src/rrd_daemon.c:1409-1453 | Every step keeps: over one item's life, dequeued and pending values have strictly increasing timestamps. |
| `DaemonRuns.PendingLastStep` | SERRDtool-1.4.9/src/rrd_daemon.c:1409-1453 | Every step keeps: what is pending is what was accepted last. |
| `DaemonRuns.RunInvariant` | SERRDtool-1.4.9/src/rrd_daemon.c:895-981 | The four invariants together over every run. |
| `DaemonRuns.Conservation` | SERRDtool-1.4.9/src/rrd_daemon.c:895-981 | Over every run with any number of writers, accepted = pending + in flight + handed to the update function + dropped, as multisets. |
| `DaemonRuns.Order` | SERRDtool-1.4.9/src/rrd_daemon.c:1314-1473 | Over every run the order of timestamps, the suffix property and the queue invariant hold. |
| `DaemonSchedule.UpdateQueues` | SERRDtool-1.4.9/src/rrd_daemon.c:1409-1458 | UPDATE leaves the item with what it accepted, everything else as it was, and queues it behind all others if and only if it is not queued, the arguments were used up, something is pending, and the write interval has passed since its last flush. |
| `DaemonSchedule.FlushQueues` | SERRDtool-1.4.9/src/rrd_daemon.c:771-840 | Flushing old values keeps the queue in front. With an age, running, it queues exactly what is pending and was last flushed that long ago; without one, all that is pending; and it takes exactly the unqueued, empty items out that have been idle for the flush interval. |
| `DaemonSchedule.TakeQueues` | SERRDtool-1.4.9/src/rrd_daemon.c:925-942 | A writer takes the head with all that is pending, and the item's write interval starts anew. |
| `DaemonSchedule.FlushFirst` | SERRDtool-1.4.9/src/rrd_daemon.c:1098-1124 | FLUSH puts a file with pending values in front of all others, whose order stays, and the client waits for it; otherwise it changes nothing. |
| `DaemonSchedule.HangLeaves` | SERRDtool-1.4.9/src/rrd_daemon.c:1385-1402 | An UPDATE that returns with the lock held leaves an empty item of its file, unless there was one, and nothing else. |
| `DaemonSchedule.QueuedIff` | SERRDtool-1.4.9/src/rrd_daemon.c:644-981 | What every step of the machine does to the queue: a file is queued afterwards if and only if it was and is not taken off, or is put in, each with its exact condition. |
| `DaemonSchedule.AnsweredIff` | SERRDtool-1.4.9/src/rrd_daemon.c:686-705 | A client that waits is answered by a step if and only if FORGET, an eviction or the second critical section of a writer concerns its file; and nothing but its own FLUSH of a file with pending values makes it wait. |
| `DaemonSchedule.OrderStep` | SERRDtool-1.4.9/src/rrd_daemon.c:711-764 | No step but a FLUSH of that file brings a file in front of another one that is queued. |
| `DaemonSchedule.FirstInFirstOut` | SERRDtool-1.4.9/src/rrd_daemon.c:711-981 | Over every run: as long as a file stays queued, no file behind it, and none that is queued later, is written before it, unless FLUSH asks for that one. |
| `DaemonSchedule.WriteInterval` | SERRDtool-1.4.9/doc/rrdcached.pod:142-152 | Over every run: once a writer has taken a file, at least the write interval passes until the file is queued again, unless FLUSH, FLUSHALL, FORGET, an eviction or the shutdown come between. |
| `DaemonSchedule.Deadline` | SERRDtool-1.4.9/doc/rrdcached.pod:142-159 | Over every run: what is pending is queued by the first periodic flush that comes a write interval and the jitter later, unless a writer or FORGET has taken it in the meantime. |
| `JournalText.ReadJournal` | SERRDtool-1.4.9/src/rrd_daemon.c:2058-2084 | The read loop with its buffer of CMD_MAX characters hands on exactly the pieces that end in a newline. |
| `JournalText.LineEntry` | SERRDtool-1.4.9/src/rrd_daemon.c:2058-2084 | A written line comes back as exactly one entry: what is left of it after cutting off pieces of CMD_MAX - 1 characters. |
| `JournalText.JournalRoundTrip` | SERRDtool-1.4.9/src/rrd_daemon.c:1973-2084 | A journal is read back as it was written if and only if every line, newline included, is shorter than CMD_MAX. |
| `JournalText.CutEntries` | SERRDtool-1.4.9/src/rrd_daemon.c:2058-2084 | A journal cut after any number of characters, in the middle of a line or not, is read back as the lines that are whole, and the rest gives no entry. |
| `JournalText.ShortEntry` | SERRDtool-1.4.9/src/rrd_daemon.c:1798-1833 | What is left of a split line can at most be a "wrote" for a file name of one character. |
| `JournalText.ForgetName` | SERRDtool-1.4.9/src/rrd_daemon.c:1268-1285 | A file name that the FORGET record holds unescaped is decoded to itself if and only if it has neither blank nor backslash. |
| `JournalText.RequestRecord` | SERRDtool-1.4.9/src/rrd_client.c:576-624 | Every update request that the client library can build is journaled as it was sent, and read back if and only if it is shorter than the client buffer. |
| `JournalText.FullRequest` | SERRDtool-1.4.9/src/rrd_client.c:576-624 | A concrete request of exactly 4096 bytes, which is built and sent, and whose record is not read back. |
| `DaemonJournal.LegibleIff` | SERRDtool-1.4.9/src/rrd_daemon.c:1973-2084 | A record is read back as what it was written for if and only if its line is shorter than CMD_MAX and, for FORGET, its name has neither blank nor backslash. |
| `DaemonJournal.MirroredStep` | SERRDtool-1.4.9/src/rrd_daemon.c:1973-2091 | A regular step keeps: replay knows the same files with the same last timestamps as the cache. Regular: no eviction of the idle file, no UPDATE of it between a FORGET and its record, and records that can be read back. |
| `DaemonJournal.SuffixStep` | SERRDtool-1.4.9/src/rrd_daemon.c:1973-2091 | A step keeps: the replayed values are a suffix of the accepted ones and lie behind every batch that has a "wrote" record. |
| `DaemonJournal.ReplayIsSuffix` | SERRDtool-1.4.9/src/rrd_daemon.c:1999-2091 | After every regular run, replaying all records printed, as a closed journal holds them, gives a suffix of the accepted values without any batch that has a "wrote" record. |
| `DaemonJournal.BatchPosition` | SERRDtool-1.4.9/src/rrd_daemon.c:938-944 | A dequeued batch is a suffix of what had been accepted at that moment, which fixes the position the "wrote" record stands for. |
| `DaemonJournal.WroteHistory` | SERRDtool-1.4.9/src/rrd_daemon.c:955-955 | A "wrote" record takes exactly its writer's own batches off those without a record, and stands for everything accepted up to its batch, unless a later one has had its record before. |
| `DaemonJournal.ExactStep` | SERRDtool-1.4.9/src/rrd_daemon.c:895-981 | A step other than a "wrote" record of this file keeps: replay gives exactly the unrecorded batches followed by the pending values. |
| `DaemonJournal.ExactWrote` | SERRDtool-1.4.9/src/rrd_daemon.c:955-955 | A "wrote" record empties the replayed values; exactness survives if and only if nothing is outstanding then. |
| `DaemonJournal.SoleStep` | SERRDtool-1.4.9/src/rrd_daemon.c:895-981 | Without an UPDATE in between, a file has at most one batch without record and nothing pending beside it. |
| `DaemonJournal.ExactStepIff` | SERRDtool-1.4.9/src/rrd_daemon.c:895-981 | A regular step keeps exactness if and only if it is not a "wrote" record of the file that leaves something outstanding. |
| `DaemonJournal.ReplayExactIff` | SERRDtool-1.4.9/src/rrd_daemon.c:895-981 | A regular run: replaying all records printed gives, in every state on the way, exactly the unrecorded batches followed by the pending values, if and only if every "wrote" record of the file is written with nothing else of the item outstanding. |
| `DaemonJournal.ReplayIsExact` | SERRDtool-1.4.9/src/rrd_daemon.c:895-981 | In particular, replay of all records printed is exact if no UPDATE of the file comes between a dequeue and its "wrote" record. |
| `DaemonJournal.UpdateExactIff` | SERRDtool-1.4.9/src/rrd_daemon.c:1319-1325 | One journaled UPDATE keeps replay exact if and only if its line is shorter than CMD_MAX or it accepts nothing (or, for a name of one character, the rest of its line happens to cancel all there is). |
| `DaemonJournal.UpdateSuffixIff` | SERRDtool-1.4.9/src/rrd_daemon.c:1319-1325 | One journaled UPDATE keeps the suffix property if and only if its line is shorter than CMD_MAX, it accepts nothing, or nothing is replayed. |
| `DaemonCrash.CrashReplay` | SERRDtool-1.4.9/src/rrd_daemon.c:1973-2084 | Buffer, new files and rotation, in every state of every run: what a crash leaves on the disk is read back as exactly the records kept, those of the old set and the lines of the present one that have wholly left the buffer. |
| `DaemonCrash.CrashIsEarlier` | SERRDtool-1.4.9/doc/rrdcached.pod:173-185 | A crash at any moment of a regular run that rotation has spared: replay gives what it would have given in an earlier state of the run, so a suffix of what was accepted by then, without any batch whose "wrote" record has left the buffer. |
| `DaemonCrash.UnwrittenIff` | SERRDtool-1.4.9/src/rrd_daemon.c:1973-1997 | Records lost in the buffer, none of them a FORGET of the file, change nothing for it if and only if they bring no value and cancel nothing. |
| `DaemonCrash.CrashExactIff` | SERRDtool-1.4.9/src/rrd_daemon.c:1973-1997 | A crash of a regular run with clean records: a restart brings back exactly what must not be lost if and only if the records still in the buffer change nothing for the file. |
| `DaemonCrash.RemovedIff` | SERRDtool-1.4.9/src/rrd_daemon.c:1913-1945 | Removing records in front, if no later UPDATE came too late, changes nothing for a file if and only if they leave nothing of it to replay or a later record cancels it. |
| `DaemonCrash.FastShutdownIff` | SERRDtool-1.4.9/src/rrd_daemon.c:1948-1971 | Fast shutdown of such a run: a restart is exact if and only if the records that rotation has removed leave nothing of the file to replay, or a record kept cancels it; provided no UPDATE kept came too late. |
| `CrashWitness.BufferedUpdateIsLost` | SERRDtool-1.4.9/src/rrd_daemon.c:1973-1997 | A run from the start, for every file and value: the UPDATE is accepted and answered, and a crash replays nothing. |
| `CrashWitness.BufferBreaksSuffix` | SERRDtool-1.4.9/src/rrd_daemon.c:1973-1997 | A run in which the first of two records has left the buffer: replay is no suffix of what was accepted. |
| `CrashWitness.WrittenBatchComesBack` | SERRDtool-1.4.9/src/rrd_daemon.c:944-955 | A run with a "wrote" record in the buffer: a crash brings back the batch that has been handed over. |
| `CrashWitness.RotationLosesPending` | SERRDtool-1.4.9/src/rrd_daemon.c:1913-1945 | A run with a writer busy for two flush intervals: two rotations unlink the only records of its batch and of a pending value, and not even a fast shutdown keeps them. |
| `CrashWitness.RefusedComesBack` | SERRDtool-1.4.9/src/rrd_daemon.c:1913-1945 | A run in which a value refused as too old, and never accepted, is replayed after rotation has removed the newer one. |
| `DaemonWitness.UpdateBeforeRecordIsLost` | SERRDtool-1.4.9/src/rrd_daemon.c:944-955 | A run from the start, for every file and any two values in order: the second comes between dequeue and "wrote" record, is pending, and is not replayed. |
| `DaemonWitness.UpdateBeforeForgetRecordIsLost` | SERRDtool-1.4.9/src/rrd_daemon.c:1278-1285 | The same for an UPDATE between FORGET and its record, which follows after the lock is released. |
| `DaemonWitness.ForgottenComesBack` | SERRDtool-1.4.9/src/rrd_daemon.c:1268-1285 | A run for every file whose name has a blank or a backslash: the forgotten value is replayed. |
| `DaemonWitness.EvictionHidesUpdate` | SERRDtool-1.4.9/src/rrd_daemon.c:771-840 | A run with an eviction, which leaves no record: a value with an older timestamp is accepted afterwards and not replayed. |
| `DaemonWitness.ForgetBreaksSuffix` | SERRDtool-1.4.9/src/rrd_daemon.c:1278-1285 | A run with an UPDATE between FORGET and its record after which replay is not even a suffix of what was accepted. |
| `DaemonWitness.EvictionBreaksSuffix` | SERRDtool-1.4.9/src/rrd_daemon.c:771-840 | The same after an eviction of a file whose last batch is still being written. |
| `DaemonWitness.LongUpdateIsLost` | SERRDtool-1.4.9/src/rrd_daemon.c:1999-2084 | A run with an UPDATE whose line has CMD_MAX bytes or more: it is accepted, and replay is not a suffix of what was accepted. |
| `DaemonWitness.FullRequestIsLost` | SERRDtool-1.4.9/src/rrd_client.c:576-624 | The longest request of the client library is such an UPDATE. |
| `DaemonFlush.TimeStep` | SERRDtool-1.4.9/src/rrd_daemon.c:644-652 | Every step keeps the last flush time of every item below now plus the jitter, or at most now without jitter. |
| `DaemonFlush.FlushAll` | SERRDtool-1.4.9/src/rrd_daemon.c:802-840 | In every run, FLUSHALL queues every file with pending values and loses none of them. |
| `DaemonFlush.DrainingIff` | SERRDtool-1.4.9/src/rrd_daemon.c:1453-1458 | One step of any kind, every handler included, keeps "all that is pending is queued, and no writer has left a queue behind" if and only if it is neither USR2 nor an UPDATE that accepts a value for an item which is not queued, unless this item gets queued now and no writer has left. |
| `DaemonFlush.DrainsIff` | SERRDtool-1.4.9/src/rrd_daemon.c:2286-2292 | Over whole runs: this holds in every state on the way if and only if no step of the run is USR2 or such an UPDATE. |
| `DaemonFlush.CleanShutdown` | SERRDtool-1.4.9/src/rrd_daemon.c:2777-2790 | With flush at shutdown, for all commands still handled after it except UPDATEs of that kind, and without USR2: once all writers have left, queue, pending and in-flight are empty and every accepted value was handed over or forgotten. |
| `DaemonWitness.DrainedUpdateIsLost` | SERRDtool-1.4.9/src/rrd_daemon.c:1453-1458 | A run from the start with such an UPDATE, of a file that has just been drained: it is answered, the writer leaves, and the value is still pending when the journals are about to be removed. |
| `DaemonFlush.WaitStep` | SERRDtool-1.4.9/src/rrd_daemon.c:1098-1124 | A step that leaves a client waiting keeps, for any number of writers: once some writer holds a batch of the file, nothing that the client asked for is pending. |
| `DaemonFlush.WokenDequeued` | SERRDtool-1.4.9/src/rrd_daemon.c:957-963 | Whatever wakes the client, a writer, FORGET or eviction: nothing it asked for is pending then. |
| `DaemonFlush.FlushGuarantee` | SERRDtool-1.4.9/doc/rrdcached.pod:504-508 | Over whole runs with any number of writers, of which none holds a batch of the file at the request: a woken client finds nothing it asked for pending, and every value accepted before has been handed over or dropped by FORGET, or is in a batch being written right now. |
| `DaemonFlush.FlushExactly` | SERRDtool-1.4.9/src/rrd_daemon.c:895-981 | With one writer, a client woken by it is answered rightly, with every value it asked for handed over or forgotten, if and only if the writer held no batch of the file at the request, in whatever stage; otherwise the last of these values is still pending. |
| `DaemonFlush.FlushWokenEarly` | SERRDtool-1.4.9/src/rrd_daemon.c:1098-1124 | With any number of writers, if one of them holds a batch of the file at the request, in any stage, there is a run on which it wakes the client while the last value asked for is pending. |
| `DaemonWitness.FlushWakesEarly` | SERRDtool-1.4.9/src/rrd_daemon.c:1098-1124 | Such a run from the start, for every file and any two values in order. |
| `DaemonWitness.HangsAtShutdown` | SERRDtool-1.4.9/src/rrd_daemon.c:1385-1402 | A run from the start in which an UPDATE returns with the lock held while a value is queued for the last flush; in every continuation of it nothing is dequeued, flushed or forgotten, no waiting client is answered, and no writer leaves. |
| `DaemonFlush.LockFree` | SERRDtool-1.4.9/src/rrd_daemon.c:895-981 | What goes on without the cache lock, and all that does: time, signals, handing over and recording a batch that has been dequeued, the record of FORGET, and the journal files. |
| `Wire.BufferAddString` | SERRDtool-1.4.9/src/rrd_client.c:123-171 | Succeeds if and only if escaped length + 1 fits, then appends exactly the escaped field and a blank; otherwise position and free size stay. |
| `Wire.Assemble` | SERRDtool-1.4.9/src/rrd_client.c:592-624 | A request is built if and only if the encoded fields fit; it is the encoding with the last blank turned into a newline. |
| `Wire.ValueTimes` | SERRDtool-1.4.9/src/rrd_client.c:173-188 | A value is sent as it is, with the present time in place of "N", as far as it fits. |
| `Wire.RrdcUpdate` | SERRDtool-1.4.9/src/rrd_client.c:576-624 | The request of an update holds the word, the file and the values, with "N:" replaced by the present time. |
| `Wire.BufferGetField` | SERRDtool-1.4.9/src/rrd_daemon.c:983-1044 | Decodes one field in place: result, length, terminator and remaining input are those of the decoding function; bytes behind it are untouched. |
| `Wire.ReadFields` | SERRDtool-1.4.9/src/rrd_daemon.c:983-1044 | Reads all fields of a command. |
| `Wire.Socket.NextCmd` | SERRDtool-1.4.9/src/rrd_daemon.c:474-508 | Returns the next complete line without its line end, or moves the incomplete rest to the front of the buffer. |
| `Wire.Socket.Receive` | SERRDtool-1.4.9/src/rrd_daemon.c:2270-2280 | A read appends as many bytes as were asked for, are there and fit. |
| `Wire.Socket.Serve` | SERRDtool-1.4.9/src/rrd_daemon.c:2270-2292 | For any sizes of reads, the commands handled are the lines of the bytes consumed so far, and what is held is the incomplete rest. |
| `Wire.LinesConcat` | SERRDtool-1.4.9/src/rrd_daemon.c:474-508 | Splitting into lines does not depend on where the stream is cut. |
| `Wire.TailFits` | SERRDtool-1.4.9/src/rrd_daemon.c:474-508 | When every line fits, the incomplete rest never fills the buffer, so that reading goes on. |
| `Wire.DecodeEscape` | SERRDtool-1.4.9/src/rrd_daemon.c:983-1044 | Decoding undoes escaping for every field without a zero character. |
| `Wire.DecodeLine` | SERRDtool-1.4.9/src/rrd_daemon.c:983-1044 | Decoding a command line gives back all its fields. |
| `Wire.RequestLine` | SERRDtool-1.4.9/src/rrd_client.c:592-624 | A request of sendable fields is one line, is not changed by stripping a carriage return, and decodes to the fields. |
| `Wire.RequestsSplit` | SERRDtool-1.4.9/src/rrd_daemon.c:474-508 | A stream of requests splits into exactly these requests. |
| `Wire.RoundTrip` | SERRDtool-1.4.9/src/rrd_daemon.c:2270-2292 | The whole way: for all batches of sendable requests whose lines fit and for all read sizes, the daemon handles exactly the fields that were sent. |
| `Resize.RrdResize` | SERRDtool-1.4.9/src/rrd_resize.c:198-279 | Refuses bad requests, otherwise writes the file in which one archive is replaced by its grown or shrunk form. |
| `Resize.GrowBlock` | SERRDtool-1.4.9/src/rrd_resize.c:211-227 | The copy loop for GROW. |
| `Resize.ShrinkBlock` | SERRDtool-1.4.9/src/rrd_resize.c:228-266 | The skip and copy loops for SHRINK, in the wrapping and the non-wrapping case. |
| `Resize.GrowHistory` | SERRDtool-1.4.9/src/rrd_resize.c:211-227 | GROW k puts k unknown rows in front of the history, oldest first, and the cursor stays on the newest row. |
| `Resize.ShrinkHistory` | SERRDtool-1.4.9/src/rrd_resize.c:228-266 | SHRINK k drops exactly the k oldest rows and the cursor stays on the newest row. |
| `Resize.GrowShrink` | SERRDtool-1.4.9/src/rrd_resize.c:211-266 | GROW k then SHRINK k is the identity on rows and cursor. |
| `Resize.ReplacedBlocks` | SERRDtool-1.4.9/src/rrd_resize.c:198-278 | Every other archive keeps its definition and its rows, wherever it lies in the file. |
| `Resize.BlocksFill` | SERRDtool-1.4.9/src/rrd_resize.c:198-279 | The archives one after the other are the whole file, nothing in front and nothing behind. |
| `Resize.ResizeRefines` | SERRDtool-1.4.9/src/rrd_resize.c:198-279 | The whole operation on the file refines the operation on the logical history of the target archive. |
| `Fetch.Choose` | SERRDtool-1.4.9/src/rrd_fetch.c:401-470 | No archive if and only if none has the function; otherwise the first archive with full coverage and least step difference, else the first with most coverage and then least step difference. |
| `FetchChoice.NewestPassed` | SERRDtool-1.4.9/src/rrd_fetch.c:401-414 | The newest interval of an archive is the last one that has wholly passed. |
| `FetchChoice.FullIff` | SERRDtool-1.4.9/src/rrd_fetch.c:415-418 | An archive of the function counts as covering the range if and only if every interval from the start of the range to the newest one is stored in it. |
| `FetchChoice.CoverageIs` | SERRDtool-1.4.9/src/rrd_fetch.c:434-440 | The match of an archive that does not cover the range is the number of seconds from the beginning of its window to the end of the range. |
| `FetchChoice.FullChoice` | SERRDtool-1.4.9/src/rrd_fetch.c:415-432 | If some archive covers the range, the one read covers it, no covering archive has a step nearer to the wish on either side, and one with exactly the wished step gives this step. |
| `FetchChoice.PartChoice` | SERRDtool-1.4.9/src/rrd_fetch.c:434-459 | If none covers it, the one read has the window that reaches back furthest, and among those the step nearest to the wish. |
| `Fetch.Offsets` | SERRDtool-1.4.9/src/rrd_fetch.c:504-510 | The divisions that turn times into row offsets are exact. |
| `Fetch.Adjust` | SERRDtool-1.4.9/src/rrd_fetch.c:473-517 | Adjusted range, offsets and the test for overlap, as interval numbers. |
| `Fetch.ReadRows` | SERRDtool-1.4.9/src/rrd_fetch.c:473-595 | The rows returned are the archive's table over time for start + step, ..., end. |
| `Fetch.ReadLoop` | SERRDtool-1.4.9/src/rrd_fetch.c:539-595 | The read loop with its wrapping pointer yields the table rows for all cursors, wraps and disjoint windows. |
| `Fetch.RingRow` | SERRDtool-1.4.9/src/rrd_fetch.c:517-523 | The i-th row behind the cursor is the row of the i-th oldest interval. |
| `Fetch.RrdFetch` | SERRDtool-1.4.9/src/rrd_fetch.c:337-597 | Choice and reading together: one row for each interval of the adjusted range of the best archive, unknown outside its window. |
| `Fetch.WindowIsHistory` | SERRDtool-1.4.9/src/rrd_fetch.c:517-595 | Fetching a whole window gives the history of the ring, oldest row first, that resizing is stated with. |
| `ResizeFetch.RowInHistory` | SERRDtool-1.4.9/src/rrd_fetch.c:517-523 | The row of an interval is its place in the history of the archive, counted from the oldest row. |
| `ResizeFetch.FetchAfterResize` | SERRDtool-1.4.9/src/rrd_resize.c:198-279 | Resizing seen by a fetch, for every archive and every interval: growing changes nothing that can be read, shrinking makes exactly the intervals before the smaller window unknown. |
| `Reduce.Factor` | SERRDtool-1.4.9/src/rrd_graph.c:662-665 | The factor is the least with which the old step reaches the requested one. |
| `Reduce.ReduceCell` | SERRDtool-1.4.9/src/rrd_graph.c:747-800 | The gather loop over one interval computes the consolidation in which unknown values take no part. |
| `Reduce.MergeStep` | SERRDtool-1.4.9/src/rrd_graph.c:750-779 | One turn of the gather loop extends the consolidated values by one, for every consolidation function. |
| `Reduce.Divided` | SERRDtool-1.4.9/src/rrd_graph.c:781-799 | The final division completes an average and nothing else. |
| `ReduceLaws.UnknownIgnored` | SERRDtool-1.4.9/src/rrd_graph.c:747-800 | For every consolidation function: unknown values do not take part, and the result is unknown if and only if nothing is known. |
| `ReduceLaws.Extremes` | SERRDtool-1.4.9/src/rrd_graph.c:750-779 | MINIMUM, MAXIMUM and FAILURES give one of the values, which bounds all of them; LAST gives the last known one. |
| `ReduceLaws.AverageBetween` | SERRDtool-1.4.9/src/rrd_graph.c:781-799 | AVERAGE and the functions treated like it lie within the bounds of the known values. |
| `ReduceLaws.AverageRaised` | SERRDtool-1.4.9/src/rrd_graph.c:781-799 | Raising all values raises their AVERAGE by as much. |
| `ReduceLaws.Twice` | SERRDtool-1.4.9/src/rrd_graph.c:747-800 | Consolidating two intervals and then the results is consolidating all at once, for every function that does not average. |
| `ReduceLaws.AverageTwice` | SERRDtool-1.4.9/src/rrd_graph.c:747-800 | An average of two averages is the average of all if and only if as many values are known on both sides, both averages are the same, or one side is unknown. |
| `Reduce.ReduceRow` | SERRDtool-1.4.9/src/rrd_graph.c:746-801 | One destination row, written in place in front of the rows it is made of. |
| `Reduce.GroupWritten` | SERRDtool-1.4.9/src/rrd_graph.c:745-804 | Consolidating the overwritten buffer is consolidating the original rows: the write cursor never reaches unread input. |
| `Reduce.RowsLeft` | SERRDtool-1.4.9/src/rrd_graph.c:707-726 | After the skips a multiple of the factor is left, except for rows strictly inside one destination interval. |
| `Reduce.SanityCheck` | SERRDtool-1.4.9/src/rrd_graph.c:707-745 | The unsigned row count after both skips, the outcome of the internal check and the sign of the count, in all cases. |
| `Reduce.SkipHead` | SERRDtool-1.4.9/src/rrd_graph.c:707-714 | The skip at the start: an unknown row and the read cursor behind its rows. |
| `Reduce.ReduceRows` | SERRDtool-1.4.9/src/rrd_graph.c:707-811 | The in-place reduction of rows: result, and exactly when the internal check ends the program. |
| `Reduce.ReduceData` | SERRDtool-1.4.9/src/rrd_graph.c:653-823 | The whole function: widened range, new step, rows written = (end' - start') / step', contents equal to the functional downsample; it ends the program if and only if the range lies strictly inside one destination interval and the factor does not divide 2^64. |
| `Reduce.ReducedCell` | SERRDtool-1.4.9/src/rrd_graph.c:745-811 | Cell (k, column) of the result is the consolidation of exactly its `factor` source cells, or unknown if the interval is cut off. |
| `Reduce.IntervalRows` | SERRDtool-1.4.9/src/rrd_graph.c:694-726 | In terms of time: which source rows belong to which destination interval, and which intervals are whole. |
| `Reduce.SanityCheckFails` | SERRDtool-1.4.9/src/rrd_graph.c:731-739 | A concrete range for which the internal check fails. |
| `GraphFetch.DataFetch` | SERRDtool-1.4.9/src/rrd_graph.c:829-907 | Fetch and reduction composed: the data of a definition, for every file and range. |
| `GraphFetch.FetchedIsHistory` | SERRDtool-1.4.9/src/rrd_graph.c:880-907 | What a fetch returns are the rows of consecutive intervals of one archive. |
| `GraphFetch.ReducedHistory` | SERRDtool-1.4.9/src/rrd_graph.c:829-907 | Each drawn cell is the consolidation of what the archive's table holds for the intervals that make it up. |
| `Rpn.RpnStack.Grow` | SERRDtool-1.4.9/src/rrd_rpncalc.c:797-808 | The stack keeps its values and always has room for the next operator. |
| `Rpn.RpnStack.Switch` | SERRDtool-1.4.9/src/rrd_rpncalc.c:815-1287 | One operator on the stack array, or its error, as on the abstract stack; the index stays inside the array; a read outside the data is an outcome. |
| `Rpn.RpnStack.ReverseTop` | SERRDtool-1.4.9/src/rrd_rpncalc.c:1124-1143 | The swapping loop of REV reverses exactly the topmost values. |
| `Rpn.RpnStack.AverageTop` | SERRDtool-1.4.9/src/rrd_rpncalc.c:1255-1280 | The loop of AVG takes off as many values as asked for and averages the known ones. |
| `Rpn.RevTwice` | SERRDtool-1.4.9/src/rrd_rpncalc.c:1124-1143 | REV undoes REV. |
| `Rpn.AvgOfReversed` | SERRDtool-1.4.9/src/rrd_rpncalc.c:1255-1280 | AVG does not depend on the order of its values, whichever of them are unknown or infinite. |
| `Rpn.RpnStack.Calc` | SERRDtool-1.4.9/src/rrd_rpncalc.c:785-1297 | The run over the program stores the value of `Eval` and moves the source pointers; on an error the output is unchanged. |
| `Rpn.ReadsOutside` | SERRDtool-1.4.9/src/rrd_rpncalc.c:822-846 | A program that counting finds right reads outside the data if and only if some pointer is not right. |
| `Rpn.RunReadable` | SERRDtool-1.4.9/src/rrd_rpncalc.c:822-846 | A program that gets through, whatever its operators take off the stack, has read inside the data. |
| `Rpn.SucceedsStatically` | SERRDtool-1.4.9/src/rrd_rpncalc.c:785-1297 | A fixed-arity program succeeds if and only if counting never runs short and ends at one, no source is without data, and every pointer lies in its data; no value matters. |
| `Rpn.EvalPostfix` | SERRDtool-1.4.9/src/rrd_rpncalc.c:785-1297 | For every expression tree the postfix form succeeds with the tree's value. |
| `Rpn.RunPostfix` | SERRDtool-1.4.9/src/rrd_rpncalc.c:785-1297 | In front of any stack, the postfix form of a tree pushes the tree's value. |
| `Rpn.RunBuild` | SERRDtool-1.4.9/src/rrd_rpncalc.c:785-1297 | Every program, also with DUP, POP and EXC, computes the value of the tree that it builds. |
| `Rpn.FlatBuild` | SERRDtool-1.4.9/src/rrd_rpncalc.c:785-1297 | The trees built by a program without DUP, POP and EXC print back as the program. |
| `Rpn.SucceedsIffTree` | SERRDtool-1.4.9/src/rrd_rpncalc.c:785-1297 | Such a program succeeds if and only if it is the postfix form of a tree, and yields the value of every such tree. |
| `Rpn.MinMax` | SERRDtool-1.4.9/src/rrd_rpncalc.c:1053-1088 | MIN, MAX and their NAN variants: which side is taken, and when the result is unknown. |
| `Rpn.Comparisons` | SERRDtool-1.4.9/src/rrd_rpncalc.c:984-1043 | The comparisons: unknown exactly if a side is, otherwise 0 or 1, mirrored and complemented as they should be. |
| `Rpn.LimitAndIf` | SERRDtool-1.4.9/src/rrd_rpncalc.c:1044-1101 | LIMIT keeps what lies between its bounds, IF chooses by its first operand. |
| `Rpn.Rounding` | SERRDtool-1.4.9/src/rrd_rpncalc.c:949-956 | FLOOR and CEIL are the next whole numbers. |
| `Rpn.Substitute` | SERRDtool-1.4.9/src/rrd_rpncalc.c:1044-1109 | IF with UN puts a substitute for exactly the unknown values. |
| `Rpn.Infinite` | SERRDtool-1.4.9/src/rrd_rpncalc.c:1105-1109 | ISINF finds exactly the known values whose difference with themselves is unknown. |
| `Rpn.AbsIsMax` | SERRDtool-1.4.9/src/rrd_rpncalc.c:1281-1284 | ABS is MAX of a value and its opposite. |
| `RpnLaws.Addition` | SERRDtool-1.4.9/src/rrd_rpncalc.c:879-884 | ADD commutes, associates, has the neutral element 0, and leaves infinite values as they are. |
| `RpnLaws.Subtraction` | SERRDtool-1.4.9/src/rrd_rpncalc.c:899-904 | SUB undoes ADD and ADD undoes SUB; turned round it is its opposite. |
| `RpnLaws.AddNan` | SERRDtool-1.4.9/src/rrd_rpncalc.c:885-898 | ADDNAN is ADD of two known values, otherwise the known one. |
| `RpnLaws.Multiplication` | SERRDtool-1.4.9/src/rrd_rpncalc.c:905-910 | MUL commutes, has the neutral element 1, doubles by 2, reverses by -1, and by 0 leaves nothing of a finite value and makes others unknown. |
| `RpnLaws.Distributes` | SERRDtool-1.4.9/src/rrd_rpncalc.c:905-910 | MUL associates and distributes over ADD. |
| `RpnLaws.SignOfProduct` | SERRDtool-1.4.9/src/rrd_rpncalc.c:905-910 | The sign of a product, also of infinite values. |
| `RpnLaws.Division` | SERRDtool-1.4.9/src/rrd_rpncalc.c:911-916 | DIV undoes MUL and MUL undoes DIV by anything but zero; by zero the result is infinite with the sign of the dividend, or unknown for zero; by an infinite value nothing is left of a finite one. |
| `RpnLaws.Order` | SERRDtool-1.4.9/src/rrd_rpncalc.c:984-1043 | The comparisons order the known values as numbers, between the two infinite ones. |
| `RpnLaws.Angles` | SERRDtool-1.4.9/src/rrd_rpncalc.c:931-938 | RAD2DEG and DEG2RAD are proportional; RAD2DEG is right to nine digits, DEG2RAD is not, and going there and back gains one part in six millions. |
| `RpnLaws.StackWords` | SERRDtool-1.4.9/src/rrd_rpncalc.c:961-979 | DUP repeats the topmost value, POP takes it off, EXC exchanges the two topmost ones. |
| `RpnLaws.StackUses` | SERRDtool-1.4.9/src/rrd_rpncalc.c:879-979 | DUP and ADD double a value; EXC before SUB turns the difference round. |
| `RpnLaws.LibraryWords` | SERRDtool-1.4.9/src/rrd_rpncalc.c:917-944 | MOD and ATAN2 get their operands in the order in which they were pushed. |
| `RpnLaws.AverageBetween` | SERRDtool-1.4.9/src/rrd_rpncalc.c:1255-1280 | AVG lies between the least and the greatest of the known values, and is unknown if and only if there is none. |
| `RpnLaws.AverageRaised` | SERRDtool-1.4.9/src/rrd_rpncalc.c:1255-1280 | Raising all known values raises AVG by as much. |
| `RpnLaws.CountCast` | SERRDtool-1.4.9/src/rrd_rpncalc.c:1124-1143 | The count that REV and AVG take off the stack: what fits an int after cutting off the fraction, and that number. |
| `Lcd.LcdArray` | SERRDtool-1.4.9/src/rrd_graph.c:963-979 | Euclid inside the zero-terminated array returns the gcd of all elements. |
| `Lcd.GcdAllGreatest` | SERRDtool-1.4.9/src/rrd_graph.c:963-979 | The gcd divides every element and every common divisor divides it. |
| `Cdef.RowCovers` | SERRDtool-1.4.9/src/rrd_graph.c:1116-1129 | The row of a time is the one whose interval (t - step, t] contains it, and lies in the data. |
| `Cdef.NextRow` | SERRDtool-1.4.9/src/rrd_rpncalc.c:843-845 | Going on by one CDEF step stays in the row except at multiples of the source step: the advance rule is right. |
| `Cdef.FirstRow` | SERRDtool-1.4.9/src/rrd_graph.c:1116-1129 | The initial pointer shift leads to the row of the first time step. |
| `Cdef.PreviousRow` | SERRDtool-1.4.9/src/rrd_rpncalc.c:829-842 | The row before exists if and only if a whole interval of the source lies before. |
| `Cdef.Range` | SERRDtool-1.4.9/src/rrd_graph.c:1086-1096 | The CDEF runs inside the range of every source, on the grid of every common divisor of the steps. |
| `Cdef.StepIsGreatest` | SERRDtool-1.4.9/src/rrd_graph.c:1137-1141 | The CDEF step is the greatest that divides all source steps. |
| `Cdef.Prepare` | SERRDtool-1.4.9/src/rrd_graph.c:1055-1114 | First pass: range, steps, pointers on the first row, VDEFs replaced by their values. |
| `Cdef.MovePointers` | SERRDtool-1.4.9/src/rrd_graph.c:1116-1129 | Second pass: every pointer on the row of the first time step. |
| `Cdef.PointersMove` | SERRDtool-1.4.9/src/rrd_rpncalc.c:843-845 | After a calculation, of any program, every pointer is on the row of the next time step. |
| `Cdef.ProgReady` | SERRDtool-1.4.9/src/rrd_graph.c:1155-1169 | At every time of the range it is known beforehand whether all reads lie inside the data, for every program; and for programs of fixed arity whether the calculator succeeds, fails, or reads outside. |
| `Cdef.Evaluate` | SERRDtool-1.4.9/src/rrd_graph.c:1143-1169 | The time loop, for every program, AVG and REV included: each output is the program's value with all sources on the rows of its time, the index stays inside the array, an error is that of the first time step that has one, and no memory is an outcome. For programs of fixed arity, an error occurs if and only if the program does not leave one value, and a read outside if and only if it does and some PREV has no row. |
| `Cdef.DataCalc` | SERRDtool-1.4.9/src/rrd_graph.c:1036-1170 | The whole CDEF branch for all sources and programs: outputs or the first error, no sources, or no memory for the unsigned size asked for; with the exact condition of each outcome for programs of fixed arity. |
| `Cdef.OutputMeaning` | SERRDtool-1.4.9/src/rrd_graph.c:1155-1169 | For a CDEF written as a tree, each output is the tree's value over what the sources are at that time. |
| `CdefLaws.SourceColumn` | SERRDtool-1.4.9/src/rrd_graph.c:1116-1129 | The value of a source at a time is the cell of its own column in the row of that time. |
| `CdefLaws.StepOperands` | SERRDtool-1.4.9/src/rrd_rpncalc.c:848-878 | Over the time steps: COUNT is the number of the step, TIME its time, LTIME minus TIME the offset of the time zone, PREV the output of the step before and unknown at the first. |
| `CdefLaws.Constants` | SERRDtool-1.4.9/src/rrd_rpncalc.c:816-866 | UNKN is unknown, INF and NEGINF bound all known values, a number is its value. |
| `CdefLaws.RunningTotal` | SERRDtool-1.4.9/src/rrd_graph.c:1143-1169 | A CDEF that adds up (x,PREV,UN,0,PREV,IF,+): every output is the source's value at its time plus the output before, which counts as nothing where it is unknown. |
| `CdefLaws.BufferIs` | SERRDtool-1.4.9/src/rrd_graph.c:1143-1153 | The buffer asked for has eight bytes for each output; for a range that ends before it starts its size is that of the difference turned round in a word. |
| `CdefLaws.RangeIsTight` | SERRDtool-1.4.9/src/rrd_graph.c:1086-1096 | The range is as large as the sources allow: it starts where one of them starts and ends where one of them ends. |
| `Cdef.ResultIsSource` | SERRDtool-1.4.9/src/rrd_graph.c:1137-1169 | A CDEF lies on its own grid and so can be a source of another. |
| `Cdef.PrevReadable` | SERRDtool-1.4.9/src/rrd_rpncalc.c:829-842 | At the second time step the calculator reads inside the data if and only if every source under PREV has a whole interval before the one for this time. |
| `Cdef.PrevOfCoarseSource` | SERRDtool-1.4.9/src/rrd_rpncalc.c:829-842 | A concrete program and sources for which it does not. |
| `RpnCompact.Pack` | SERRDtool-1.4.9/src/rrd_rpncalc.c:345-385 | Succeeds if and only if there are at most 19 nodes and every constant is an integer in the range of short; the nodes stored. |
| `RpnCompact.Unpack` | SERRDtool-1.4.9/src/rrd_rpncalc.c:387-411 | The expanded program, inside the fixed array. |
| `RpnCompact.RoundTrip` | SERRDtool-1.4.9/src/rrd_rpncalc.c:345-411 | Expanding what was compacted gives back the program if and only if its source numbers are shorts. |
| `RpnCompact.PackUnpacked` | SERRDtool-1.4.9/src/rrd_rpncalc.c:345-411 | Compacting what was expanded gives back every stored program. |
| `Scanner.ScanDec` | SERRDtool-1.4.9/src/rrd_rpncalc.c:637-641 | A printed integer before a comma is scanned to the comma. |
| `Scanner.ScanDecimal` | SERRDtool-1.4.9/src/rrd_rpncalc.c:637-641 | Every decimal number, with or without sign and point, is scanned to the comma. |
| `Scanner.ScanExponent` | SERRDtool-1.4.9/src/rrd_rpncalc.c:637-641 | So is every number with an exponent, if the exponent has a digit; otherwise nothing is scanned. |
| `Scanner.ScanHex` | SERRDtool-1.4.9/src/rrd_rpncalc.c:637-641 | So is every hexadecimal number. |
| `Scanner.NumberAgree` | SERRDtool-1.4.9/src/rrd_rpncalc.c:637-641 | Whether a number is scanned does not depend on what follows the next comma. |
| `RpnWords.DecodeWord` | SERRDtool-1.4.9/src/rrd_rpncalc.c:663-714 | No two operators have the same word. |
| `RpnText.Compact2Str` | SERRDtool-1.4.9/src/rrd_rpncalc.c:421-515 | The text printed. |
| `RpnText.PrintedFirst` | SERRDtool-1.4.9/src/rrd_rpncalc.c:421-515 | The text is the first element, a comma and the text of the rest. |
| `RpnText.FindElement` | SERRDtool-1.4.9/src/rrd_rpncalc.c:642-715 | The chain of word comparisons finds the operator whose word the element is, whatever the order of the chain. |
| `RpnText.StepWord` | SERRDtool-1.4.9/src/rrd_rpncalc.c:642-715 | An operator word is read as this operator. |
| `RpnText.StepNumber` | SERRDtool-1.4.9/src/rrd_rpncalc.c:637-641 | A printed constant is read back if a comma follows, and never as a constant at the end. |
| `RpnText.StepName` | SERRDtool-1.4.9/src/rrd_rpncalc.c:716-721 | What a data source name is read as, in all cases. |
| `RpnText.StepPrev` | SERRDtool-1.4.9/src/rrd_rpncalc.c:624-640 | PREV of a name is read as PREV of the first source of this name, and is an error if there is none; what closes the name need not be a parenthesis. |
| `RpnText.StepPrevEmpty` | SERRDtool-1.4.9/src/rrd_rpncalc.c:624-640 | PREV with an empty name is no PREV of a source. |
| `RpnText.Parse` | SERRDtool-1.4.9/src/rrd_rpncalc.c:612-742 | The parser loop yields the parse of the text, or an error; for the empty text, and only for it, the code writes through a null pointer. |
| `RpnText.FirstElement` | SERRDtool-1.4.9/src/rrd_rpncalc.c:612-742 | The first element of a printed program is read back, to its end, if and only if it is readable. |
| `RpnText.PrintParse` | SERRDtool-1.4.9/src/rrd_rpncalc.c:421-742 | Parsing a printed program gives back the program if and only if all of it is readable: no constant last, INF only last, no PREV of a source and no COUNT, names that are no operator, no number before a comma, and the first of their kind. |
| `HoltWinters.Rrd.UpdateHwPredict` | SERRDtool-1.4.9/src/rrd_hw_update.c:38-115 | Whether the SEASONAL archive was updated before or not, the area ends as if updated from what all were before. |
| `HoltWinters.Rrd.UpdateSeasonal` | SERRDtool-1.4.9/src/rrd_hw_update.c:117-230 | The same for the SEASONAL archive, with the one exception of a multiplicative start with a value that is not positive. |
| `HoltWinters.Rrd.UpdateDevSeasonal` | SERRDtool-1.4.9/src/rrd_hw_update.c:262-365 | The same for the DEVSEASONAL archive, for both of the archives it reads. |
| `HoltWinters.Rrd.UpdateDevPredict` | SERRDtool-1.4.9/src/rrd_hw_update.c:232-260 | The same for the DEVPREDICT archive. |
| `HoltWinters.Rrd.UpdateFailures` | SERRDtool-1.4.9/src/rrd_hw_update.c:369-476 | The violation window moves on by one and decides the failure; which deviation is compared with. |
| `HoltWinters.ShiftWindow` | SERRDtool-1.4.9/src/rrd_hw_update.c:458-466 | The shift loop and its count. |
| `HoltWinters.Rrd.FailuresOrder` | SERRDtool-1.4.9/src/rrd_hw_update.c:395-416 | FAILURES compares with the current deviation if and only if it lies on the same side of the SEASONAL and the DEVSEASONAL archive. |
| `HoltWinters.Rrd.UpdateAberrantCf` | SERRDtool-1.4.9/src/rrd_hw.c:406-495 | One archive updated: those below the index are in their next state, the others untouched. |
| `HoltWinters.Rrd.UpdateAberrantCdps` | SERRDtool-1.4.9/src/rrd_update.c:1872-1919 | Order independence: for every order of the archives in the file, one round gives the same stored values and the same next state; exactly one case is excepted. |
| `HoltWinters.Rrd.UpdateTwoSteps` | SERRDtool-1.4.9/src/rrd_update.c:1872-1919 | An update over two elapsed steps: the row of the first step and the state after the second do not depend on the order either, each with the same one exception. |
| `HoltWintersRuns.StepInv` | SERRDtool-1.4.9/src/rrd_hw_update.c:38-230 | Every event of either method keeps that slope and intercept are known together and that before nothing seasonal is known, if and only if it is not an observation of the multiplicative method at a seasonal coefficient that is not positive. |
| `HoltWintersRuns.RunInv` | SERRDtool-1.4.9/src/rrd_hw_update.c:38-230 | The invariant holds all along a run if and only if no observation of it is of that kind. |
| `HoltWintersRuns.AlwaysSound` | SERRDtool-1.4.9/src/rrd_hw.c:387-404 | From the creation on, every update of the additive method, and of the multiplicative one as long as it keeps its intercept, finds a state in which order does not matter. |
| `HoltWintersRuns.LosesIntercept` | SERRDtool-1.4.9/src/rrd_hw_math.c:45-58 | The intercept becomes unknown again exactly when the multiplicative method meets a seasonal coefficient that is not positive. |
| `HoltWintersRuns.LosesInFour` | SERRDtool-1.4.9/src/rrd_hw_math.c:45-58 | Four observations from the creation on after which the multiplicative method has lost its intercept while its next coefficient is known, for all weights. |
| `HoltWinters.PerfectPrediction` | SERRDtool-1.4.9/src/rrd_hw_math.c:21-58 | A value predicted exactly moves the intercept along the slope, leaves slope and seasonal coefficient, and only fades the deviation. |
| `HoltWinters.Weights` | SERRDtool-1.4.9/src/rrd_hw_math.c:21-143 | With weight 1 only the new value counts, with weight 0 only the old one. |
| `HoltWintersLaws.AdditiveCorrection` | SERRDtool-1.4.9/src/rrd_hw_math.c:21-51 | The additive update as a correction by the error of the prediction: intercept, slope and season each take up their share of it. |
| `HoltWintersLaws.MultiplicativeCorrection` | SERRDtool-1.4.9/src/rrd_hw_math.c:64-102 | The multiplicative update, with the error relative to the seasonal coefficient and to the intercept. |
| `HoltWintersLaws.DeviationCorrection` | SERRDtool-1.4.9/src/rrd_hw_math.c:128-143 | The deviation takes up its weight of the absolute error, or starts with it. |
| `HoltWintersLaws.AbsoluteError` | SERRDtool-1.4.9/src/rrd_hw_math.c:128-143 | The absolute error is symmetric, never negative, and zero exactly at equal values. |
| `HoltWintersLaws.SeasonBegins` | SERRDtool-1.4.9/src/rrd_hw_math.c:21-113 | An identity coefficient leaves the prediction to the baseline; the first coefficient makes the observed value out of the intercept. |
| `HoltWintersLaws.MovesOn` | SERRDtool-1.4.9/src/rrd_hw_update.c:38-365 | An update keeps what was before as the last state, takes over the coefficients for the next time, and stores as predicted deviation the one that was expected. |
| `HoltWintersLaws.UnknownKeeps` | SERRDtool-1.4.9/src/rrd_hw_update.c:38-365 | An unknown value changes no coefficient, and without a prediction there is no deviation. |
| `HoltWintersLaws.Starts` | SERRDtool-1.4.9/src/rrd_hw_update.c:38-365 | The first known value becomes the intercept, without slope and season; while the season has no coefficient for the time, intercept and slope stay. |
| `HoltWintersLaws.ObserveAreas` | SERRDtool-1.4.9/src/rrd_update.c:1872-1919 | An observation over the whole state: each area goes on from its own, the rows written are what was stored, the coefficients for the next time are those two rows on. |
| `HoltWintersLaws.StartsOver` | SERRDtool-1.4.9/src/rrd_hw.c:316-385 | A reset forgets everything, so that the next known value starts over. |
| `HoltWintersLaws.UnknownStretch` | SERRDtool-1.4.9/src/rrd_hw_update.c:38-115 | Over every run of n unknown observations, for both methods: the prediction has moved n times along the slope, with the seasonal coefficient that belongs to its time. |
| `HoltWintersLaws.ExactSignal` | SERRDtool-1.4.9/src/rrd_hw_update.c:38-230 | Over every run, whatever the weights: a linear trend with a season on top, once learned, is predicted exactly for ever. |
| `HoltWintersLaws.SlopeAfterGap` | SERRDtool-1.4.9/src/rrd_hw_math.c:119-126 | After n unknown observations such a signal is still predicted, but the slope then learned is too steep by beta times n slopes; it is kept if and only if n, beta or the slope is zero. |
| `HoltWintersLaws.Corridor` | SERRDtool-1.4.9/src/rrd_hw_update.c:27-36 | A value is a violation if and only if its distance from the prediction exceeds the share of the deviation that belongs to its side. |
| `HoltWintersLaws.ViolatedIff` | SERRDtool-1.4.9/src/rrd_hw_update.c:437-456 | With a known deviation an unknown value counts as a violation, and a known one if it leaves the corridor round a known prediction; with an unknown deviation none does. |
| `HoltWintersLaws.WindowIsRecent` | SERRDtool-1.4.9/src/rrd_hw_update.c:458-476 | Over every run of updates: the window of a FAILURES archive holds what the last ones were, and a failure is stored if and only if at least the threshold of them were violations. |
| `Fifo.Queue.constructor` | SERRDtool-1.4.9/src/rrd_hw.c:516-532 | An empty queue with its head one past the end. |
| `Fifo.Queue.IsEmpty` | SERRDtool-1.4.9/src/rrd_hw.c:534-538 | The emptiness test also holds of a full queue. |
| `Fifo.Queue.Push` | SERRDtool-1.4.9/src/rrd_hw.c:540-546 | Appends to the contents, wrapping round. |
| `Fifo.Queue.Pop` | SERRDtool-1.4.9/src/rrd_hw.c:548-553 | Removes and returns the oldest element, wrapping round. |
| `Smoother.MyModIs` | SERRDtool-1.4.9/src/rrd_hw.c:497-512 | It is the remainder except for negative multiples of the modulus. |
| `Smoother.NextCentre` | SERRDtool-1.4.9/src/rrd_hw.c:212-231 | One turn for one column: window, sum, smoothed value and baseline move on together. |
| `Smoother.SmoothCell` | SERRDtool-1.4.9/src/rrd_hw.c:214-230 | The loop body in memory: queue contents are the window and the running sum is its sum; other columns are untouched. |
| `Smoother.Average` | SERRDtool-1.4.9/src/rrd_hw.c:194-236 | After the loops every column is the smoothed one and every baseline its mean. |
| `Smoother.SmoothedMean` | SERRDtool-1.4.9/src/rrd_hw.c:212-231 | Every smoothed value is the mean of its window, in which positions behind the end stand for smoothed values at the front. |
| `Smoother.ExactMean` | SERRDtool-1.4.9/src/rrd_hw.c:203-231 | Away from the last `offset` rows it is the exact circular mean of the originals. |
| `Smoother.SmoothedWithin` | SERRDtool-1.4.9/src/rrd_hw.c:203-231 | Smoothing stays within the bounds of the originals. |
| `Smoother.OffsetBound` | SERRDtool-1.4.9/src/rrd_hw.c:144-150 | The window never exceeds the season, and has as many whole rows on each side as its share of it allows. |
| `Smoother.ReadAll` | SERRDtool-1.4.9/src/rrd_hw.c:170-192 | Reading stops at the first unknown value. |
| `Smoother.ApplySmoother` | SERRDtool-1.4.9/src/rrd_hw.c:128-312 | The whole function: unchanged without a window or with an unknown value, otherwise every column smoothed, recentred and its intercept raised. |
| `Smoother.Recentred` | SERRDtool-1.4.9/src/rrd_hw.c:260-271 | The recentred coefficients sum to zero, and intercept plus coefficient is preserved. |
| `Smoother.SmoothedAdditive` | SERRDtool-1.4.9/src/rrd_hw.c:260-271 | The same for what the function leaves behind. |
| `Smoother.SmoothedMultiplicative` | SERRDtool-1.4.9/src/rrd_hw.c:260-271 | The multiplicative method after smoothing: with a positive baseline the coefficients sum to their number and times the baseline give the smoothed values; otherwise none is known. |
| `Diff.Isolate` | SERRDtool-1.4.9/src/rrd_diff.c:50-67 | The scan finds the digits and the sign and cuts the text off behind the digits. |
| `Diff.Subtract` | SERRDtool-1.4.9/src/rrd_diff.c:77-103 | The column loop with borrow: digits written plus borrow times 10^m are the exact difference, also for unequal lengths. |
| `Diff.SubtractStep` | SERRDtool-1.4.9/src/rrd_diff.c:83-103 | One column keeps this. |
| `Diff.Complement` | SERRDtool-1.4.9/src/rrd_diff.c:104-114 | The ten's complement pass turns the digits into 10^m minus their value. |
| `Diff.LowIsDec` | SERRDtool-1.4.9/src/rrd_diff.c:83-103 | Adding up columns from the right gives the usual value of the digits. |
| `Diff.RrdDiff` | SERRDtool-1.4.9/src/rrd_diff.c:41-123 | For all texts the result is the exact difference, unknown exactly for the refused ones, and a write behind the buffer exactly for accepted numbers of more than 28 digits. |
| `Diff.DigitTexts` | SERRDtool-1.4.9/src/rrd_diff.c:71-82 | Plain digit texts of every length: up to 28 digits are subtracted, 29 and 30 overrun the buffer, more are refused. |
| `Diff.PrintedCounters` | SERRDtool-1.4.9/src/rrd_diff.c:41-123 | For all numbers of up to 28 digits, as they are printed, the result is their difference, also with a minus sign in front of both; with one sign only it is unknown. |
| `Diff.TwentyNineDigits` | SERRDtool-1.4.9/src/rrd_diff.c:71-82 | Two concrete texts of 29 digits that do. |
| `GetOpt.SwapBlocks` | SERRDtool-1.4.9/src/rrd_getopt.c:325-343 | The element-wise swap loops exchange two equal blocks. |
| `GetOpt.Rotate` | SERRDtool-1.4.9/src/rrd_getopt.c:307-347 | The loop of `exchange` rotates two adjacent blocks in place: order inside each and everything outside is kept. |
| `GetOpt.Scanner.Exchange` | SERRDtool-1.4.9/src/rrd_getopt.c:307-353 | The same, with the bookkeeping of the skipped range. |
| `GetOpt.Scanner.Collect` | SERRDtool-1.4.9/src/rrd_getopt.c:509-524 | The bookkeeping at the start of a call changes neither what will stand in front nor what will stand behind. |
| `GetOpt.Scanner.StopAtDashes` | SERRDtool-1.4.9/src/rrd_getopt.c:531-541 | "--" ends the options: everything behind it is an operand. |
| `GetOpt.Scanner.Advance` | SERRDtool-1.4.9/src/rrd_getopt.c:499-552 | One call: either the scan is over with the final order and boundary, or it stands on an option. |
| `GetOpt.Scanner.Permute` | SERRDtool-1.4.9/src/rrd_getopt.c:499-552 | When the scan returns -1, the arguments are all options with their arguments in order, then all others in order, with `optind` at the boundary. |
| `GetOpt.PartsArePermutation` | SERRDtool-1.4.9/src/rrd_getopt.c:499-552 | Both parts together are the arguments, nothing lost or doubled. |
| `GetOpt.OptionSyntax` | SERRDtool-1.4.9/src/rrd_getopt.c:492-496 | An element has option syntax if and only if it is a dash with something behind it. |
| `GetOpt.PartsSeparate` | SERRDtool-1.4.9/src/rrd_getopt.c:499-552 | Without "--", what ends up behind has no option syntax; and if no option takes an argument, all that ends up in front has. |
| `GetOpt.ArgumentStays` | SERRDtool-1.4.9/src/rrd_getopt.c:499-541 | An option that takes an argument keeps the element behind it, whatever that looks like; everything behind "--" stays as it is. |

## Left out

- DaemonProcess.Daemon.HandleUpdate: a NUL byte inside the line, behind which the journal does not see anything; for arguments of CMD_MAX characters or more, where the code copies the line without a terminator and prints what lies behind it, only that the outcome is not defined.
- DaemonJournal.ReplayIsSuffix: about runs without eviction of the idle file, without an UPDATE between a FORGET and its record, and with records that can be read back; `DaemonWitness` shows that each of these is needed. It takes the journal as closed; crashes and rotation are the subject of `DaemonCrash`.
- Rpn.RpnStack.Calc: without SORT, TREND, TRENDNAN, PREDICT and PREDICTSIGMA; `qsort` is a library function, and the others read earlier data through the node of another operator.
- Cdef.DataCalc: for programs with AVG or REV, whose arity is a value on the stack, no condition for success in terms of the program alone.
- RpnText.Parse: PREV with an unclosed name at the end of the text is an error here and an out-of-bounds read there; numbers that are not plain integers get their value from a parameter.
- GraphFetch.DataFetch: without the cache of fetched data, the FLUSH request to a daemon in front of it, and the search for the data source name behind it.
- Reduce.ReduceData: the reduction factor fits an int and times fit 64-bit words; ending the program is a result.
- HoltWinters.Rrd.UpdateAberrantCdps: one data source; updates over one step and, in `UpdateTwoSteps`, over two. From three on `reset_cdp` takes over, which is not part of this model.
- Wire.RoundTrip: for fields without zero and newline characters, a last field that does not end in a carriage return, and lines that fit the buffer.
- The order in which the tree is traversed is a parameter of the steps, as are clock readings and jitter.
- `rrd_update_r` is opaque: a batch counts as handed over whether it succeeds or not.
- Journal files: their names and sorting, and the size at which a new one begins, which may be after any record here; what the operating system loses of what was written to it; the base directory of relative file names.
- Sockets, poll loops, permissions, thread creation, pid files, statistics apart from the queue length, and all other requests of the daemon.
- Allocation failures, except for the outputs of a CDEF, and I/O errors.
- Rounding, overflow and the sign of zero of doubles; NaN timestamps.
- Real-time latency and liveness: that a queued item is eventually written.
- File headers, locking and mapping; archives are arrays of rows with a cursor.
- `parseCDEF_DS` and its list of forbidden operators; transcendental operators, the clock and the time zone are parameters of the RPN machine, the clock one value per run.
- GF_SHIFT and GF_VDEF in `data_calc`, and the cache of fetched data in `data_fetch`.
- Decoding of option letters, long options and abbreviations in `_getopt_internal`, and the orderings other than PERMUTE.
- Drawing, parsing of times, dumps, XML, CGI and the web service redirection: user interface and foreign libraries.
