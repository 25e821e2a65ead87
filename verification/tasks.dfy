/** File events and sync tasks (include/task.h). */
module Tasks {
  import opened Bytes

  const EVENT_CREATE := 1
  const EVENT_MODIFY := 2
  const EVENT_DELETE := 3
  const EVENT_RENAME := 4
  const EVENT_FULLSCAN := 5
  const EVENT_EXIT := 99

  const MAX_RETRY_COUNT := 3

  /**
   * SyncTask. `arrival` is not a field of the C struct: it is the position of the event in the
   * event pipe, which no code inspects and by which the theorems tell equal tasks apart.
   */
  datatype SyncTask = SyncTask(
    eventType: int, srcPath: text, relPath: text, oldRelPath: text,
    fileSize: int, mode: int, mtime: int, isDir: bool, retryCount: nat, arrival: nat)

  /** What a failed task puts back into the queue: itself with one more retry, unless it has had them all. */
  function Requeued(t: SyncTask): seq<SyncTask> {
    if t.retryCount < MAX_RETRY_COUNT then [t.(retryCount := t.retryCount + 1)] else []
  }
}
