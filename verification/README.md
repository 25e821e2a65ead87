# A verified model of MiniSync

MiniSync mirrors a directory tree. A monitor notices changes, a scheduler debounces them, a pool of
workers copies files to a backup directory or to a server, and the server keeps what it replaces.
This project states in Dafny what these parts do and proves what they promise over whole runs.
`dafny verify dfyconfig.toml` checks everything.

## How the model is laid out

| file | models |
|---|---|
| `bytes.dfy` | octets, C strings, integer widths and their little-endian image |
| `io.dfy` | descriptors with short reads and writes, interruptions and a point where they fail for good |
| `fnv.dfy` | the FNV-1a hash of `src/hash.c` |
| `wire.dfy` | headers, frames and their transport (`include/protocol.h`, `src/net_utils.c`) |
| `paths.dfy` | the path functions of `src/file_utils.c` |
| `tasks.dfy`, `slots.dfy`, `queue.dfy` | tasks, the fixed slot array, the linked task queue |
| `wakeups.dfy` | the threads around the queue's mutex and condition variable |
| `scheduler.dfy`, `retry.dfy`, `mirror.dfy` | scheduler, bounded retries, and both with a worker and a changing source |
| `monitor.dfy`, `watch.dfy` | the polling differ of `src/monitor.c`, and what it announces to the mirror |
| `filetree.dfy`, `store.dfy` | the files of the backup directory, the disk, and the store operations of `src/file_utils.c` |
| `server.dfy`, `connection.dfy`, `gate.dfy` | receiving, handlers and message loop of `src/server.c`, and what they guarantee on any bytes |
| `conditions.dfy` | when exactly the operations on the backup directory work, in terms of path lengths and files |
| `serial.dfy`, `threads.dfy` | connection threads around the server's mutex: interleavings, and the requests they serve |
| `client.dfy`, `local.dfy` | the sending side and local mode of `src/transfer.c` |
| `resume.dfy` | large files over interrupted sessions |
| `session.dfy`, `remote.dfy` | client and server code run against each other, and remote mode of `src/transfer.c` |
| `history.dfy` | old content over whole runs |

Code that works step by step is modelled by methods on classes and arrays, and each method is proved
against functions on values; the theorems about runs are lemmas about those functions and relations.

Conventions that matter when reading the contracts:

* Bytes are integers from 0 to 255 and strings are byte sequences. 32-bit and 64-bit fields are
  bounded integers, with wrap-around and truncation written out (`Fnv.Mul`, `Client.SmallBlock`).
* A `Source` delivers a fixed byte sequence in pieces of any size and then ends or fails; a `Sink`
  takes a fixed number of bytes in pieces of any size. So "cut at any byte" is a statement about
  `Sink.room` or about a prefix of a byte sequence.
* Files are a map from paths below the backup root to nodes. `Store.SpotResolves` proves that the
  strings the code builds resolve to these paths.
* On a `Disk` that `mayFail`, every system call may also fail for a reason outside the model.
  `faulted` remembers that one did. Safety clauses hold whatever fails; "if and only if" clauses hold
  when nothing faulted, and their right-hand side is a condition on the files and bytes before the
  call.
* `Disk.Lock` finds the files as other threads have left them (`found`), and a handler's contract
  relates what it found there (`Connection.Before`) to what it leaves when it gives the mutex back.
  `Threads.RequestsOneByOne` proves that in every interleaving of such threads these relations form
  one chain. Offset queries look without the mutex: the k-th look of a connection sees the state
  `views(k)`, and nothing is assumed about how these states are related to each other or to `found`.
* A relation such as `Server.Uploaded` lists what one request may do; `ok` says whether it committed
  and `clean` that no call faulted.
* `Confined(fs, gs, touched, ways)` says that outside `touched` nothing changed except for missing
  directories made on the way to `ways`.

## The main results

* **Resume** (`Resume.RunKeepsPrefix`, `FullSession`, `SessionsGetThere`, `EndToEnd.RunSession`,
  `RunSessions`): over any number of sessions, each cut at any byte and with any faults, the staged
  file stays a front of the source. If the client takes a session for done, the server has
  committed exactly the source; an undisturbed session does so if and only if the staged file is a
  strict front of the source and no block but the first is larger than 16 MiB. Without faults and
  with a clear way, as many sessions as bytes are missing are enough if each lets its first block
  through. If nothing is missing any more, a session sends only FILE_END, which the server refuses,
  so such a file stays stuck (`src/server.c:354`).
* **Corruption** (`Fnv.SingleByteCaught`, `Resume.OneWrongByteIsNeverCommitted`): once one byte of the
  staged file is wrong, no number of sessions commits it, or repairs it, as long as the source has a
  hash other than 0 and it is announced (`WrongByteStays` for the other case).
* **Small uploads** (`Client.SmallUpload`, `EndToEnd.RunSmallUpload`): cut anywhere, all or nothing, also
  for a file whose length changed after its task was made.
* **Commit gate** (`Gates.CommitGate`, `FailedUploadChangesNoFile`, `BlocksUseLatestQuery`) and **replies**
  (`Connection.HandleConnection`): for any bytes on a connection.
* **Serial equivalence** (`Threads.RequestsOneByOne`, `Serial.SerialEquivalence`, `SectionsAreOwn`,
  `LocksAreReleased`): every interleaving of connection threads is one request after the other, and
  every handler is proved to keep the locking discipline this rests on.
* **History** (`History.RequestKeepsIff`, `HistoryIsKept`, `HistoryUnderConcurrency`): exactly which content each
  successful request loses, whatever its time stamp (for a large upload in which a call failed by
  itself, at most which), and that uploads and deletes lose none while stamps are fresh and backups
  can be made.
  `OneSecondLosesContent` and `OneSecondLosesDeleted` are inputs for which some is.
* **Scheduler** (`Scheduler.SchedulerMain`, `SchedulerRun`, `EachEventOnce`, `OrderKeptIff`,
  `StableFlushIsExact`, `QueueTiming`, `PendingIsYoung`): order of pushes for events of any kind under
  the exact condition; when each task is accepted, in terms of the clock readings of the wake-ups; and
  conservation. An event that is not pushed gave way to the next event that concerns its path, or
  came when all 4096 slots held entries of earlier events (`DroppedIff`); with at most 4096 paths
  none is dropped (`NothingDropped`).
* **Debouncing preserves meaning** (`Mirror.DebouncingPreservesMeaning`, `FewPathsAreMirrored`), with
  copies torn by concurrent changes and tried again. From every reachable state the client comes to
  the rest these speak of (`ComesToRest`, `MirrorCatchesUp`), and one exact poll announces all that is
  unannounced (`Watch.PollReachesMirror`). The worker's step is tied to the code of both modes
  (`Local.SyncIsSynced`, `Remote.SyncTaskRemote`, `RemoteIsSynced`).
* **No lost wake-up** (`WakeUps.NoLostWakeUp`), **FIFO** (`Queue.TaskQueue.Push`, `Pop`, `Destroy`), **retries**
  (`Retry.AttemptsAreBounded`, `GivenUpAfterFour`, `PushesAccounted`).
* **Exact poll diff** (`Monitor.PollOfTree`, `PollTracks`, `VisitedIffAccepted`, `VisitedIsReal`): a poll
  reports exactly the changes of the tree if and only if its old and new paths together fit the
  table, and otherwise exactly the changes of the part the table ends up with.
* **Exact conditions** (`Conditions`, `Connection.PathFitsIff`, `Server.BlockTakenIff`): when an upload,
  a backup, a delete or a rename works, in terms of the pieces and lengths of paths, of the bytes, and
  of what is in the files.
* **Framing** (`Wire.Deliver`), **formats** (`Wire.HeaderImage`, `Client.RequestsOnTheWire`),
  **streaming hash** (`Fnv.HashFdRange`, `Vectors`), **path algebra** (`Paths`),
  **rename payloads** (`Connection.SplitOfPacked`, `Client.RenameArrives`).

## Model

| member | source | states |
|---|---|---|
| Io.Source.ReadFull | src/net_utils.c:45-66 | whatever the sizes of the reads and the interruptions, either exactly the next n bytes are delivered, or fewer were left and the call fails |
| Io.Sink.WriteFull | src/net_utils.c:68-97 | short writes, EINTR, EAGAIN and empty writes notwithstanding, the bytes arrive in order; it fails exactly if the connection dies before the last, and then everything before the cut has arrived |
| Fnv.StepIsBijection | src/hash.c:10-13 | for every byte, one step of FNV-1a is a bijection on 64-bit states, with an explicit inverse from the inverse of the prime modulo 2^64 |
| Fnv.StepSeparatesBytes | src/hash.c:10-13 | from one state, different bytes lead to different states |
| Fnv.XorIsBitwise | src/hash.c:11 | bit by bit, a bit of the result is set exactly if it differs between state and byte; the high 56 bits stay |
| Fnv.Vectors | src/hash.c:5-16 | the published hash values of no byte, of "a" and of "ab" |
| Fnv.FoldConcat | src/hash.c:46-49 | hashing a concatenation is hashing the second part from the state after the first |
| Fnv.FoldInjective | src/hash.c:10-13 | two states that agree after the same bytes were equal before |
| Fnv.SingleByteCaught | src/hash.c:5-16 | equal-length strings that differ in exactly one byte have different hashes |
| Fnv.HashBuffer | src/hash.c:5-16 | the buffer loop computes FNV-1a of the buffer |
| Fnv.Absorb | src/hash.c:10-13 | the byte loop is the fold of the step over the bytes |
| Fnv.HashFdRange | src/hash.c:18-60 | under any short reads and interruptions the descriptor loop returns the buffer hash of the bytes from the offset to end of file or to offset plus length if sooner, and 0 exactly if the seek or a read it needs fails |
| Wire.DecodeOfEncode | include/protocol.h:21-35 | a header read back from its memory image is the header |
| Wire.HeaderImage | include/protocol.h:21-35 | byte by byte, the image of a header: eleven little-endian fields in this order, magic 0x4D53594E and version 1; which headers are acceptable |
| Wire.EncodeOfDecode | include/protocol.h:21-35 | every 64 bytes are the image of the header they decode to |
| Wire.RecvHeader | src/net_utils.c:167-173 | a header is delivered exactly if 64 bytes with the right magic, version and path length are there, and then exactly these are consumed |
| Wire.SendFrame | src/net_utils.c:162-182 | a header with its path or data arrives whole, or cut exactly where the connection died |
| Wire.RecvFrame | src/net_utils.c:167-198 | the next frame of the stream and nothing of the one behind it, or failure |
| Wire.SendFrames | src/net_utils.c:162-182 | a list of frames arrives whole or cut where the connection died |
| Wire.RecvFrames | src/net_utils.c:167-198 | receiving until failure yields exactly the parse of the stream |
| Wire.ParseOfTruncated | src/net_utils.c:162-198 | a frame stream cut after any number of bytes parses to exactly the frames that were complete by then |
| Wire.CompleteWithinIsExact | src/net_utils.c:162-198 | the count of complete frames is the largest one whose encoding fits the cut |
| Wire.Deliver | src/net_utils.c:45-108 | sending and receiving frames over a connection that dies anywhere yields exactly the complete frames, all of them if it does not die, for every schedule of short reads and writes |
| Paths.RelativeOfJoin | src/file_utils.c:97-124 | relativizing undoes joining if and only if the root does not end in two slashes behind its first byte |
| Paths.JoinIsInjective | src/file_utils.c:26-44 | different accepted paths join to different strings |
| Paths.AcceptedIff | src/file_utils.c:9-24 | a path is accepted exactly if its pieces between slashes are not just "." or "..", the first is not empty, no middle one is empty, none but the last ends in ".." and none but the first begins with ".." |
| Paths.CurrentPathIs | src/server.c:40-50 | the string for a path below current/ is root, slash if needed, "current/" and path, and there is one exactly if the path is proper and the string is shorter than 512 bytes |
| Paths.AcceptedHasNoDotDot | src/file_utils.c:9-24 | no component of an accepted path is ".." |
| Paths.DotDotShows | src/file_utils.c:17-22 | a component ".." leaves one of the forbidden substrings, whichever place it has |
| Paths.LexicalOfPrefixed | src/file_utils.c:26-44 | resolving a joined path continues from where the base leads |
| Paths.WalkDown | src/file_utils.c:9-24 | without ".." a lookup never rises above where it starts |
| Paths.StaysUnderCurrent | src/server.c:40-50 | an accepted path resolves to its own entries under current/ and no step of the lookup rises above current/ |
| Paths.DistinctNodesDistinctPaths | src/monitor.c:72-92 | nodes with the same relative path are the same node |
| Paths.RelativeOfNode | src/file_utils.c:97-124 | the relative path of an accepted node is its entry names joined by slashes |
| Paths.NodePasses | src/file_utils.c:97-124 | when exactly a node gets a relative path |
| Paths.NamesOfParts | src/file_utils.c:78-95 | how the places of a path, of its directory and of its .syncing file go together |
| Slots.PutIsUpdate | src/transfer.c:37-55 | storing in the slot array is updating a map, except that a new key is lost when all slots are used |
| Slots.ClearIsRemove | src/transfer.c:29-35 | clearing a slot removes exactly its key |
| Slots.WriteIsUpdate | src/transfer.c:52-54 | writing one slot changes the map at its old and its new key only |
| Slots.FreeIffRoom | src/monitor.c:104-112 | with one slot per key there is a free slot exactly while the map is smaller than the array |
| Slots.Table.Lookup | src/transfer.c:19-27 | the search returns the first used slot with the key, or -1 if there is none |
| Slots.Table.Allocate | src/monitor.c:104-112 | the search returns the first unused slot, or -1 if there is none |
| Queue.TaskQueue.Push | src/task_queue.c:58-83 | the linked list gains the task at its end, or is unchanged if it is stopped or out of memory |
| Queue.TaskQueue.Link | src/task_queue.c:70-78 | front, rear, size and next still represent one acyclic chain, one node longer |
| Queue.TaskQueue.Pop | src/task_queue.c:85-108 | tasks leave in push order; 0 is returned only when stopped and empty, and it sleeps only when running and empty |
| Queue.TaskQueue.Stop | src/task_queue.c:110-116 | stopping loses nothing |
| Queue.TaskQueue.Destroy | src/task_queue.c:40-56 | every node still queued is freed, in order, and none else |
| Queue.AcceptedOnce | src/task_queue.c:33-116 | how to read the bookkeeping that Push, Pop and Destroy keep: the place of each accepted task among the popped, freed and queued ones |
| WakeUps.NoLostWakeUp | src/task_queue.c:58-116 | in every reachable state with the mutex free, if a worker sleeps then at least as many threads have been woken and not run yet as tasks are queued, and after stop nobody sleeps; accepted tasks are the popped ones followed by the queue; 0 is returned only when stopped and empty for good |
| WakeUps.SomeoneTakesIt | src/task_queue.c:85-108 | if a worker sleeps while tasks are queued and the mutex is free, some woken thread can take the mutex and a task |
| WakeUps.WaitersAfter | src/task_queue.c:72-108 | which steps move threads into and out of the wait, and how many; a thread that tests the queue sleeps exactly if it is empty and running, and returns 0 exactly if it is empty and stopped |
| WakeUps.CountingKept | src/task_queue.c:85-108 | the same in every state, mutex taken or not: every step, spurious wake-ups included, keeps enough wake-ups, counting the one the owner of the mutex stands for |
| WakeUps.LocalKept | src/task_queue.c:58-116 | every step keeps mutual exclusion and what each thread relies on while it holds the mutex |
| Scheduler.ReceiveKeepsInv | src/transfer.c:107-139 | one event keeps order, conservation with the cause of every fate, and one slot per path, if it is of one of the five kinds or nothing is pending for its path |
| Scheduler.FlushKeepsInv | src/transfer.c:57-79 | so does a flush, at every slot |
| Scheduler.RunKeepsInv | src/transfer.c:88-147 | so does every run of such events |
| Scheduler.FlushIsExact | src/transfer.c:57-79 | slot by slot, a flush pushes and empties exactly the due ones |
| Scheduler.StableFlushIsExact | src/transfer.c:57-69 | a stable flush pushes exactly the latest tasks of paths quiet for the debounce time and leaves exactly the younger ones |
| Scheduler.EachEventOnce | src/transfer.c:88-147 | in every reachable state each event is in exactly one of: pushed; pending; superseded or cancelled by the very next event that concerns its path, a debounced or an immediate one; dropped because all 4096 slots held entries of earlier events on other paths, each still in the table when it arrived |
| Scheduler.GaveWay | src/transfer.c:37-139 | by the numbers of the kinds: only events of kind 1, 2 or 5 are ever not pushed; they are superseded by the next event of kind 1, 2 or 5 for the path, cancelled by one of kind 3 or 4 for the path or with it as old path, or dropped while 4096 other paths have entries |
| Scheduler.DroppedIff | src/transfer.c:37-55 | an event is dropped if and only if it is to be debounced, has no slot, and all slots belong to other paths |
| Scheduler.FewPathsDropNothing | src/transfer.c:37-55 | in every reachable state whose events name at most 4096 paths, none has been dropped |
| Scheduler.SchedulerRun | src/transfer.c:88-147 | over any run of such events, pushes for one path are in strictly increasing arrival order and nothing is pending at exit |
| Scheduler.AcceptedWhen | src/transfer.c:88-141 | by the wake-ups of a run: a task of kind 1, 2 or 5 is accepted in a wake-up whose clock reading is at least the debounce time after the one taken when its event was read; a task of any other kind is accepted first in the wake-up that read it |
| Scheduler.QueueTiming | src/transfer.c:88-147 | the same for everything the queue of the scheduler accepts until it is stopped, where what is accepted after the loop was of kind 1, 2 or 5 and still waiting |
| Scheduler.PendingIsYoung | src/transfer.c:57-139 | after every wake-up that flushes, what is pending is of kind 1, 2 or 5 and was read less than the debounce time before; an event of kind 3 or 4 leaves nothing pending for its path and its old path |
| Scheduler.NothingDropped | src/transfer.c:88-147 | over any run whose events name at most 4096 paths, at exit each event was pushed or gave way to the next event that concerns its path |
| Scheduler.OrderKeptIff | src/transfer.c:119-136 | for an event of any kind, the pushes of each path stay in arrival order if and only if the kind is one of the five or nothing was pending for its path |
| Scheduler.KnownKindsAreTame | src/transfer.c:107-139 | a run in which only the five kinds and EXIT occur meets the condition at every event |
| Scheduler.PendingRemove | src/transfer.c:29-35 | the array after it is the table without the path |
| Scheduler.PendingUpdateOrInsert | src/transfer.c:37-55 | the array after it is the table with the path's latest task, or unchanged if it is full |
| Scheduler.PendingFlush | src/transfer.c:57-79 | array and queue follow the abstract flush; no push is refused |
| Scheduler.FlushSlot | src/transfer.c:60-67 | array and queue follow the abstract step for one slot |
| Scheduler.HandleEvent | src/transfer.c:119-136 | array and queue follow the abstract step for every kind of event |
| Scheduler.SchedulerMain | src/transfer.c:88-147 | over any sequence of wake-ups the queue has accepted exactly the pushes of the abstract run, in order, and is stopped last; when each was accepted, Scheduler.QueueTiming says |
| Scheduler.FlushAndStop | src/transfer.c:143-146 | at exit everything pending is accepted by the queue before it is stopped |
| Retry.RequeueOrFail | src/transfer.c:149-163 | a failed task goes back with one more retry, or is given up, exactly at the limit |
| Retry.StepKeepsBudget | src/transfer.c:165-193 | every step keeps attempts begun plus attempts left within four per accepted push |
| Retry.AttemptsAreBounded | src/transfer.c:165-193 | in any interleaving of any number of workers, attempts begun are at most four times the accepted pushes, in total and per event |
| Retry.FourAttempts | src/transfer.c:149-163 | an event pushed once is attempted at most four times |
| Retry.GivenUpAfterFour | src/transfer.c:149-163 | an event whose attempts all fail and whose task the queue always takes back is attempted exactly four times per push before it is given up |
| Retry.PushesAccounted | src/transfer.c:165-193 | each accepted push is queued, being worked on, or settled by a success, a fourth attempt or a refusal; so no task is attempted again after a success |
| Retry.RunAccounted | src/transfer.c:165-193 | so over any run of any number of workers, in total and for each event |
| Retry.MeasureFalls | src/transfer.c:165-193 | once the scheduler is done, the remaining attempts never grow and fall with every finished attempt |
| Mirror.StepKeepsInvariant | src/transfer.c:88-193 | every step of source, monitor, scheduler and worker, a torn copy put back into the queue or given up included, keeps the link between last events and mirrored content |
| Mirror.FinishMirrors | src/transfer.c:165-193 | when the worker finishes a task, for the first time or again, no path whose last event is dealt with gets out of step |
| Mirror.ReachableInvariant | src/transfer.c:88-193 | so does every run |
| Mirror.ScheduledAsInCode | src/transfer.c:88-147 | in every run the scheduler does exactly what the code does in the wake-ups of that run |
| Mirror.ChangeCanTear | src/transfer.c:223-260 | a change of a file while it is copied can leave any bytes in the mirror and make the copy fail |
| Mirror.DebouncingPreservesMeaning | src/transfer.c:88-193 | once everything announced is worked off, each touched path without an unannounced change is in the mirror as in the source and as eager copying would have left it, unless its last event met a full table; failed copies of changing files are retried behind later tasks |
| Mirror.FewPathsAreMirrored | src/transfer.c:88-193 | the same without any exception, for every run that announces at most 4096 different paths |
| Mirror.ComesToRest | src/transfer.c:88-193 | from every reachable state, if the source stays as it is, scheduler and worker get to a state with everything announced worked off, with nothing new announced |
| Mirror.MirrorCatchesUp | src/transfer.c:88-193 | so after any run announcing at most 4096 paths, they get to a state in which every touched path without an unannounced change is in the mirror as in the source |
| Monitor.VisitedIsReal | src/monitor.c:135-185 | every task of a poll is of kind 2 and reports, field by field, a node that is in the tree: its path below the root, relative path, size, time, mode and whether it is a directory; no old path and no retries |
| Monitor.VisitedIffAccepted | src/monitor.c:135-185 | a node is visited exactly if its own path passes the checks: pruning a rejected directory loses no acceptable node |
| Monitor.VisitedDistinct | src/monitor.c:135-185 | distinct visited nodes have distinct relative paths |
| Monitor.TargetOfTree | src/monitor.c:72-92 | the catalogue of a tree lists each accepted node under its names joined by slashes, with its size, time and mode |
| Monitor.TargetIsReal | src/monitor.c:72-92 | it lists nothing else |
| Monitor.PollTracks | src/monitor.c:187-205 | one poll, whether or not the table overflows: the events are exactly the difference between the old snapshot and what the table ends up with, which is a part of the tree, and all of it if and only if the old paths and those of the tree together fit |
| Monitor.PollIsExact | src/monitor.c:187-205 | one poll emits exactly one right event per changed path of the tree and none else if and only if the old paths and those of the tree together fit the table; then the events turn the old snapshot into the new one; the table keeps one slot per path in any case |
| Monitor.TwoPollsCatchUp | src/monitor.c:187-205 | whatever the table held before, after two polls it holds exactly the tree, if the tree fits |
| Monitor.ReplayIsTarget | src/monitor.c:187-205 | any exact diff, replayed, turns the old catalogue into the new one |
| Monitor.SecondPollIsSilent | src/monitor.c:187-205 | a second poll of an unchanged tree emits nothing |
| Monitor.PollOfTree | src/monitor.c:187-205 | all of this for the tree as it is walked: exact if and only if the paths fit, exact for what the table holds in any case |
| Monitor.EventIsReal | src/monitor.c:135-205 | every event of a poll, by the number of its kind: 1 for a path the table did not have and 2 carry the data of a node of the tree, field by field; 3 is for a path the table had and has no more, with the place and directory flag it had |
| Monitor.SlotIsReal | src/monitor.c:123-185 | every slot after a poll holds size, time and mode of a node of the tree, and its place and directory flag unless the slot did not change |
| Monitor.PollState.ObserveTask | src/monitor.c:158-177 | table and events follow the abstract step for a new, a changed and an unchanged path, and for a full table |
| Monitor.PollState.SnapshotMarkAllUnseen | src/monitor.c:114-121 | every used slot is unseen and otherwise as before |
| Monitor.PollState.PollScanPath | src/monitor.c:135-185 | the recursive walk observes exactly the visited nodes, in order |
| Monitor.PollState.PollScanAndEmitChanges | src/monitor.c:187-205 | mark, walk and sweep over the array are the abstract poll |
| FileTree.OverlayAt | src/server.c:90 | byte by byte, what pwrite leaves: new bytes, old bytes, zeros in between |
| FileTree.MovedAt | src/file_utils.c:210-230 | path by path, what rename leaves, subtrees included |
| FileTree.EffectKeepsTree | src/file_utils.c:46-76 | every system call keeps every entry inside a directory and sizes representable |
| FileTree.RenameFile | src/server.c:149 | renaming a file changes exactly its old and its new place |
| Store.SpotResolves | src/file_utils.c:26-95 | the strings built for a target, its staging file and its parent directory resolve to the places the model uses |
| Store.EnsureDirExists | src/file_utils.c:46-76 | every missing directory on the way is made and nothing else changes; without faults it fails exactly if a file is in the way |
| Store.SafeRename | src/file_utils.c:210-220 | after success the rename has happened on top of the parent directories; after failure at most directories were made |
| Store.AppendAll | src/file_utils.c:183-196 | short writes append the piece in order; a failing one leaves a front of it |
| Store.CopyFilePlain | src/file_utils.c:150-208 | after success the target is the whole source; after failure only the target differs; without faults it fails exactly for a reason in the files |
| Store.CopyBytes | src/file_utils.c:168-200 | over any short reads and writes the loop copies the whole source, or a fault stopped it |
| Store.CopyFileAtomic | src/file_utils.c:232-248 | the target is the whole source or untouched; without faults nothing stays staged; when exactly it works |
| Store.BackupOldVersion | src/file_utils.c:278-309 | after success the version of this second holds what the current file held; after failure no version changed; when exactly it works |
| Store.MoveToTrash | src/file_utils.c:311-339 | after success the node and everything under it is in the trash; after failure only directories were made; when exactly it works |
| Store.Disk.HashFile | src/hash.c:62-72 | the hash of the file's content, or 0 for an unreadable one |
| Store.Disk.PWrite | src/server.c:90-93 | the whole buffer is written, or a front of it and the call fails |
| Store.Disk.Do | src/file_utils.c:65 | a system call has its effect or none, and without faults fails only for a reason in the files |
| Serial.LocksAreReleased | src/server.c:98-304 | a disciplined thread gives the mutex back once for each time it took it, and one that never takes it only looks |
| Serial.SerialEquivalence | src/server.c:98-304 | for disciplined threads, in every interleaving the files equal those of running the critical sections one at a time in acquisition order, and in that serial run every act is possible and sees what it saw |
| Serial.SectionsAreOwn | src/server.c:98-304 | the sections of each thread are, in order, exactly what it did under the mutex |
| Serial.HolderHolds | src/server.c:9 | the mutex belongs to exactly the thread inside a critical section |
| Threads.ClientThread | src/server.c:372-379 | whatever other threads made of the files at each look without the mutex and before it got the mutex, the thread keeps the discipline, and its critical section serves one request on what it found |
| Threads.SectionAlone | src/server.c:98-304 | inside a critical section the files are what the owner alone makes of what it found |
| Threads.RequestsOneByOne | src/server.c:98-304 | in every interleaving of such threads, whenever the mutex is free, the files come from the first ones by the requests one by one, each with the effect its handler promises, in the order of taking the mutex |
| Server.ReceiveBlocks | src/server.c:52-96 | the blocks of the stream land in order; the end is reported exactly if the stream has one before its first flaw; a failure stops within one block |
| Server.SyncAndCheck | src/server.c:280-287 | behind the last block, the commit goes on exactly if the stream was sound and the whole-file hash matches |
| Server.OpenStaging | src/server.c:121-133 | directories, backup and an empty staging file, or a failure that left the target alone; when exactly it works |
| Server.OpenStream | src/server.c:245-257 | directories and the staging file with what it holds already; when exactly it works |
| Server.CommitStaged | src/server.c:149 | the staged content becomes the target's, or the target and the staged content stay as they were |
| Server.BackupAndCommit | src/server.c:289-291 | the same whether or not the backup worked |
| Server.StoreUpload | src/server.c:121-157 | on any bytes: success means the whole-file hash matched and the target holds the assembled blocks, with the replaced content in the version; failure leaves the target alone, and staged what was there or a front of the blocks, all of them without faults; without faults success is characterized exactly |
| Server.StoreStream | src/server.c:245-296 | the same for a large stream on top of what is staged; what a failure leaves staged, all of the blocks without faults; what the target held is in the version exactly if the backup, whose result is ignored, can work |
| Server.StagedBackup | src/server.c:289-290 | staging a file does not change whether its backup works |
| Server.ReceiveStream | src/server.c:259-278 | the first block must match its hash, 0 included, and has no size limit; the others as in a small upload |
| Server.ReadyToRename | src/server.c:149 | the commit's rename works exactly unless a directory is in the target's place, and then changes two entries |
| Server.PartlyFront | src/server.c:266-278 | receiving the first block and then the others is receiving all of them |
| Server.AssembleFront | src/server.c:90 | blocks are applied in the order of arrival |
| Server.BlockTakenIff | src/server.c:71-95 | a block is taken exactly if it is of 1 byte to 16 MiB, hashes to what its header says, if that says anything, and fits below 2^63; otherwise neither it nor what follows is |
| Server.EndTakenIff | src/server.c:61-73 | the end is taken exactly if announced and final hash agree or one is 0; no other message is |
| Server.FirstBlockTakenIff | src/server.c:259-278 | the first block of a large stream is taken exactly if it is whole, hashes to what its header says, 0 included, and fits below 2^63 |
| Conditions.LocatedIs | src/file_utils.c:26-44 | the string for a path in an area of the backup directory, and that there is one exactly if it is shorter than 512 bytes |
| Conditions.BackupWorksIff | src/file_utils.c:278-309 | a backup works exactly if the path is proper and short enough and, if there is something to save, the string of the version is short enough and nothing is in its way |
| Conditions.TrashWorksIff | src/file_utils.c:311-339 | so for the trash, where a file may replace a file and a directory an empty directory |
| Conditions.RenameWorksIff | src/server.c:175-210 | a rename works exactly if both paths are proper and short enough, the old one is there, no file is where directories are needed, the new place is not inside the old one, and what it holds can be replaced |
| Conditions.UploadWorksIff | src/server.c:121-157 | a small upload works exactly if nothing is in the way of the file, nor of the version if there is a file to save, and the blocks have the hash of the end or else the announced one, 0 standing for any |
| Conditions.StreamWorksIff | src/server.c:245-296 | a large upload works exactly if nothing is in the way of the file and the whole has that hash |
| Conditions.FileSyncsIff | src/transfer.c:223-266 | copying a file in local mode works exactly if nothing is in the way of the file, nor of the version if there is a file to save, and all strings are short enough |
| Connection.PathFitsIff | src/server.c:103-104 | a path passes the check of uploads, queries and streams exactly if its pieces are proper, in whatever directory, and root, "current/", path and ".syncing" together are shorter than 512 bytes |
| Connection.HandleFileBegin | src/server.c:98-159 | from the files found under the mutex: bad paths change nothing; directories are made; files are uploaded as above; the mutex is taken at most once and given back; an acknowledgement is sent exactly on success |
| Connection.HandleLargeBlockStream | src/server.c:234-304 | as above for a large stream |
| Connection.HandleFileDelete | src/server.c:161-173 | as above for a delete |
| Connection.HandleFileRename | src/server.c:175-210 | as above for a rename, with the exact condition under which it happens |
| Connection.HandleQueryOffset | src/server.c:212-232 | the reply is the length the staged file has when it is looked at, whatever others do to the files before and after; no lock is taken and no file changes |
| Connection.Dispatch | src/server.c:328-358 | each kind of message is handled as its job, and answered by an acknowledgement exactly if the job succeeded |
| Connection.AnswerGreetings | src/server.c:310-368 | as long as the loop goes on, each greeting and acceptable query is answered in order, each from the state of the files others have made by then; it stops at the job, at the end, or where a reply is cut |
| Connection.Reply | src/net_utils.c:256-276 | a success is answered by an acknowledgement, a failure by an error message, cut only where the connection died |
| Connection.HandleConnection | src/server.c:306-370 | on any bytes, with other threads changing the files between any two looks and before the mutex is taken: if the replies to all greetings and queries get through, the connection performs the job in the bytes and answers it by an acknowledgement exactly if it succeeded, otherwise by an error, and not at all exactly if the bytes end or an EXIT comes instead of a job; otherwise it changes nothing; at most one handler takes the mutex |
| Connection.SplitOfPacked | src/transfer.c:351-384 | the server's split returns exactly the pair the client packed |
| Connection.SplitRefusedIff | src/server.c:175-187 | a payload is refused for its shape exactly when no NUL has anything behind it |
| Gates.CommitGate | src/server.c:52-159 | after any upload on any bytes, a file under current/ is as before, is the staging file, or is the target with content that passed the check against the total hashes |
| Gates.FailedUploadChangesNoFile | src/server.c:234-304 | a failed upload leaves every file under current/ but its staging file alone and adds none |
| Gates.MovesAddNothing | src/server.c:161-210 | deletes and renames bring in no content |
| Gates.BlocksUseLatestQuery | src/server.c:306-346 | behind any greetings and queries, a block stream goes to the path of the latest query, and without one nowhere |
| Client.StreamBlocks | src/transfer.c:553-573 | under any short reads and writes, any failure and any block size, what is on the wire is the front of a session, all of it on success; with good luck it fails only where the connection died |
| Client.SendLargeFile | src/transfer.c:519-576 | the same from the offset in the server's reply |
| Client.SendRemoteLargeFile | src/transfer.c:519-588 | done only if the whole session is on the wire, the server offered an offset and then acknowledged; with good luck exactly then unless the connection died |
| Client.QueryRemoteOffset | src/transfer.c:505-517 | the offset is the one in an offset reply; anything else is an error |
| Client.SendFileBlock | src/transfer.c:410-427 | header with the block's own hash, then the data, cut only where the connection died |
| Client.WaitForAck | src/transfer.c:311-318 | an acknowledgement or an offset reply counts, anything else is an error |
| Client.StoppedIsFront | src/transfer.c:553-569 | stopping within any block leaves the front of a session |
| Client.SessionGoesOn | src/transfer.c:553-573 | a session continues behind the blocks sent so far as if it started there |
| Client.SendSmallBlock | src/transfer.c:462-480 | the file is read at once; a file shorter than its task says is not sent |
| Client.SendSmallFile | src/transfer.c:441-489 | what is on the wire is a front of begin, at most one block and end |
| Client.SendRemoteSmallFile | src/transfer.c:441-503 | done only if all of it is on the wire, the file is as long as its task says at least, and the server acknowledged |
| Client.SmallJob | src/transfer.c:448-460 | the job the server sees in an upload cut anywhere: none before the path is whole, then the upload of that path |
| Client.SmallReceived | src/transfer.c:470-487 | cut anywhere, the data arrives with its end exactly if nothing is missing and its one block can be taken |
| Client.SmallUpload | src/transfer.c:441-503 | a small upload cut anywhere commits exactly if nothing is missing, the data hash to what was announced, their size can be taken and nothing is in the way; they are the source if the size is right; what they replace is saved; otherwise the target stays; a source of more than 16 MiB never ends up at the target |
| Client.SendRemoteRename | src/transfer.c:351-384 | the payload of the two paths, or nothing if they do not fit |
| Client.SendRemoteDirCreate | src/transfer.c:386-408 | done exactly if the whole message is on the wire and the server acknowledged |
| Client.SendDelete | src/transfer.c:320-344 | the header with the path is on the wire whole, or cut where the connection died, or nothing if the path is too long |
| Client.SendRemoteDelete | src/transfer.c:337-349 | done exactly if all of it is on the wire and the server acknowledged |
| Client.RenameArrives | src/server.c:175-187 | cut anywhere, the job the server sees is the rename the client meant if nothing is missing, and none otherwise |
| Client.DeleteArrives | src/transfer.c:337-349 | cut anywhere, the job the server sees is the delete of that path if nothing is missing, and none otherwise |
| Client.DirArrives | src/transfer.c:386-408 | cut anywhere, the server begins that directory if nothing is missing, and nothing otherwise |
| Client.DirModeIff | src/transfer.c:396 | the server takes the mode for that of a directory exactly if the mode had no other file type |
| Client.RequestsOnTheWire | src/transfer.c:320-408 | byte by byte, the five kinds of requests, with their type numbers and the fields they fill |
| Client.DataOnTheWire | src/transfer.c:410-439 | byte by byte, blocks and end: each block with its place, length and hash, all with size, mode, time and hash of the whole |
| Client.RepliesOnTheWire | src/net_utils.c:256-276 | byte by byte, the three kinds of replies; which ones the client takes for a success and for an offset |
| Client.OtherMessages | src/server.c:310-368 | a HELLO is skipped, and a message of any other type than that of a request asks for nothing |
| Resume.ReceiveOfCut | src/server.c:52-96 | a block stream cut anywhere arrives as its first complete blocks up to one that is too large, with its end exactly if nothing is missing and none is too large |
| Resume.ReceiveBlock | src/server.c:71-95 | a whole block frame arrives as that block and the rest of the stream |
| Resume.ReceivePartOfBlock | src/server.c:79-82 | a block frame cut anywhere arrives as nothing |
| Resume.RefusedBlock | src/server.c:71-73 | an empty block or one of more than 16 MiB arrives as nothing |
| Resume.ReceiveEnd | src/server.c:61-69 | the end arrives only whole |
| Resume.SessionJob | src/transfer.c:505-588 | what a session cut at any byte asks of the server: how many blocks arrive, when the end does; with nothing to send there is no job at all |
| Resume.PartlyIsPrefix | src/server.c:84-95 | any part of the blocks on top of the front of the source before them is a front of the source |
| Resume.AssembleOnto | src/server.c:84-95 | whatever is staged, the blocks continue it with the rest of the source |
| Resume.SessionKeepsPrefix | src/server.c:234-304 | one session, cut anywhere and failing anyhow, keeps the staged file a front of the source and the target what it was or the source; an acknowledged one has committed exactly the source |
| Resume.StaysStuck | src/server.c:354 | where nothing is missing in what is staged, no session changes anything, and none is acknowledged |
| Resume.StreamOnStaged | src/server.c:245-296 | the first blocks of a session on top of a staged front leave a front or commit the source |
| Resume.RunKeepsPrefix | src/transfer.c:505-588 | so do any number of sessions in a row |
| Resume.FullSession | src/transfer.c:519-588 | a session without faults in which everything arrives commits exactly the source and leaves nothing staged if and only if the staged file is a strict front and no block but the first is too large |
| Resume.SessionKeepsWay | src/server.c:245-296 | no session puts a file in the way or a directory in the place of the target |
| Resume.ResumeAfterCrashes | src/transfer.c:505-588 | any crashes followed by one undisturbed session deliver the source exactly, unless nothing was missing any more |
| Resume.SessionMakesProgress | src/server.c:259-278 | a session without faults whose first block gets through commits the source or makes the staged file longer |
| Resume.SessionsGetThere | src/transfer.c:505-588 | however short each connection lives, as many such sessions as bytes are missing bring the source to the target or stage all of it |
| Resume.WrongByteStays | src/server.c:284-287 | one session on a staged file with one wrong byte neither commits nor repairs it, except that without an announced hash it may commit it |
| Resume.OneWrongByteIsNeverCommitted | src/server.c:284-287 | over any number of sessions, a staged file that differs from the source in one byte keeps differing there and is never committed, when the source's hash is not 0 |
| EndToEnd.ConclusionHeard | src/transfer.c:311-318 | the client takes a connection's last reply, cut anywhere, for a success exactly if there was one and the reply is whole |
| EndToEnd.SessionHeard | src/server.c:306-370 | the replies to a whole session: the length of what is staged, then what the client reads as a success exactly if the server had one |
| EndToEnd.SentIsCommitted | src/transfer.c:519-588 | a session the client takes for done has committed exactly the source, and an undisturbed one is taken for done exactly if something was missing |
| EndToEnd.RunSession | src/transfer.c:519-588 | client code and server code over a connection that may die in either direction, while other threads change other files: if the client reports success, the source is at the target, nothing is staged any more, and apart from these two and the version of this second no file has changed; if nothing fails, both directions are long enough and nothing is in the way, it reports success exactly if something was missing |
| EndToEnd.RunSessions | src/transfer.c:519-588 | run after run, whatever dies and fails, the staged file stays a front of the source and the target is as before or the source; on a disk that does not fail, with a clear way, one smooth session among them is enough for the source to be at the target, or else all of it staged |
| EndToEnd.RunSmallUpload | src/transfer.c:441-503 | the same for a small file: success means the data are committed and what they replace is saved, and when exactly it is reported |
| EndToEnd.RunDelete | src/transfer.c:337-349 | the same for a delete: success means the node and all under it are in the trash, anything else left at most directories behind, and when exactly it is reported |
| EndToEnd.RunFrame | src/transfer.c:337-408 | a request of one message is done only if the server has done the job in it, and exactly then if nothing is cut |
| EndToEnd.RunDirCreate | src/transfer.c:386-408 | the same for a directory: success means exactly the missing directories were made, and when exactly it is reported |
| EndToEnd.RunRename | src/transfer.c:351-384 | the same for a rename: success means it has happened; otherwise it may have, or at most directories were made; when exactly it is reported |
| Remote.SyncTaskRemote | src/transfer.c:590-642 | for a delete, a directory, a vanished, an unlockable, a large and a small file: what a success has changed on the server, and, if nothing is cut and nothing fails, exactly when there is one: a large file on a staged front if something is missing, a small one if its data can be taken and hash to the same and nothing found under the mutex is in the way |
| Remote.RemoteIsSynced | src/transfer.c:590-642 | a success has done to the current files of the server what the mirror model's worker does, if what is staged for a large file is a front of it and a small one has the size its task says, at most 16 MiB |
| Local.SyncLocalFile | src/transfer.c:223-266 | success puts what was copied at the target and the old content in the version, and, if nothing failed by itself, only if its hash is that of the source before the copy; a failure leaves the target alone or replaced in just this way; no other file changes; when exactly it works |
| Local.TryRename | src/transfer.c:282-294 | the rename has happened, or at most directories were made; when exactly it happens |
| Local.SyncTaskLocal | src/transfer.c:268-309 | delete, rename with fallback, directory and file, each with its effect and exact condition |
| Local.SyncIsSynced | src/transfer.c:223-309 | a successful run does to the current files what the mirror model's worker does, also on a file that changes meanwhile; when exactly it succeeds |
| Watch.PollAnnounces | src/monitor.c:187-205 | the events of an exact poll are legal announcements for exactly their paths, and behind them no change is unannounced |
| Watch.PollReachesMirror | src/monitor.c:187-205 | after any run, one exact poll and no further changes, scheduler and worker get to a state in which every touched path is in the mirror as in the source, if run and poll name at most 4096 paths |
| History.RequestKeepsIff | src/server.c:98-304 | for every kind of request and any time stamp: after a successful one, content is kept at a path in current, a version or the trash if and only if it was kept on another shelf than the one written over, or is what the request brings; for a large upload this equivalence holds if no call failed by itself; after one in which a call did, and after any failed request, one direction holds: no more is lost |
| History.UploadSpares | src/server.c:121-157 | this for small uploads: what is lost is what the version of this second held |
| History.StreamSpares | src/server.c:234-304 | this for large uploads: the equivalence if no call failed by itself, with what the version of this second held lost if the backup can work and otherwise what the current file held; one direction, that no more is lost, in any case |
| History.DeleteSpares | src/file_utils.c:311-339 | this for deletes, whole subtrees included: what is lost is the file the trash of this second held at the same path |
| History.RenameSpares | src/server.c:175-210 | this for renames: what the destination held in current, which nothing saves |
| History.SparedIsKept | src/server.c:98-304 | over any run, content stays kept as long as no request finds it only on the shelf it writes over |
| History.HistoryIsKept | src/file_utils.c:278-339 | over any run of uploads of any size, directory creations, deletes and renames elsewhere, failed ones included, with fresh time stamps every content ever current is current, in a version or in the trash |
| History.HistoryUnderConcurrency | src/server.c:98-304 | so it is in every interleaving of connection threads |
| History.OneSecondLosesContent | src/file_utils.c:270-309 | concrete files and three uploads within one second for which the first content is lost |
| History.OneSecondLosesDeleted | src/file_utils.c:311-339 | concrete files and a second delete of one path within one second for which the content deleted first is lost |

## Left out

- Sockets, pipes, processes, signals, `select`, accept loops and thread creation: foreign calls, replaced by byte streams and step inputs.
- Real inotify delivery, cookie pairing of moves and recursive watches (`src/monitor.c:207-240`, `src/monitor.c:309-467`): kernel behaviour decides the outcome.
- `scan_directory_and_emit_tasks` (`src/monitor.c:242-281`), the scan at the start: it emits an event for every acceptable node, enters it into the table, and also descends into directories whose own path was rejected.
- Logging, log formatting, the argument parsers and the configuration file.
- File modes, times, advisory locks and durability: they are not part of a file's content. A failing fsync is a fault.
- Store.SafeRename: the copy and unlink that replace a rename across file systems (`src/file_utils.c:218-229`); all renames are within one file system.
- The texts of error replies: every failure of a handler is answered by some error message, and the model uses one text per handler.
- Paths whose last component is empty or "." are resolved like the directory they name; the kernel's extra refusals for them (a trailing slash on a regular file, renaming ".") are not modelled.
- mkdir calls repeated for "." components are not modelled; they find the directory there.
- stat and access that fail for another reason than a missing file: the code takes such a failure for a missing file (`src/file_utils.c:290`, `src/file_utils.c:323`), and the model's lookups are exact.
- Symbolic links in the source tree and in the backup directory.
- Local mode with several workers at once: `Local` runs one task at a time.
- Shutdown draining by workers: a worker tests `stop` before it pops, so only what happens to the queue itself is proved.
- An interrupted call that is interrupted forever: only finitely many interruptions, full buffers and empty writes happen in a row.
- Queue.TaskQueue.Push: the theorems about the scheduler assume that calloc finds memory; Push itself covers both.
- History.HistoryIsKept: a large upload whose backup fails loses what it replaces, because the code ignores that result (`src/server.c:290`), and a rename loses what it replaces; both are excluded from this run, and History.RequestKeepsIff says what exactly they lose.
- Mirror.DebouncingPreservesMeaning: one worker, no failures but those of copies of changing files, regular files, no renames carrying an old path. A delete that failed and was retried behind a later copy of its path would take that copy away.
- Client.SendRemoteLargeFile: the file does not change while it is sent; its length is below 2^63 and the block size below 2^32.
- Client.SendRemoteSmallFile: the file may differ from what its task says, but does not change between hashing and reading it.
- Resume.RunKeepsPrefix: sessions for one path follow one another, each starting from the offset the server replied.
- EndToEnd.RunSession: other threads may change any file at any time except the staged one between the query and the blocks.
- Remote.SyncTaskRemote: tasks with an old path; the rename that is tried for them first is EndToEnd.RunRename, and what follows if it fails is this method, but the two are not composed (`src/transfer.c:604-612`).
- Watch.PollReachesMirror: regular files, and changes that show in size, modification time or mode; the differ compares nothing else (`src/monitor.c:169-171`).
- EndToEnd.RunSessions: nobody else changes files between and during these sessions.
