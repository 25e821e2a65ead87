/** Remote mode: sync_task_remote of src/transfer.c against the server, for tasks without an old path. */
module Remote {
  import opened Bytes
  import opened Paths
  import opened Tasks
  import opened FileTree
  import opened Serial
  import opened Store
  import opened Server
  import opened Connection
  import opened Resume
  import opened Client
  import opened EndToEnd
  import Local
  import Mirror

  /** What a task says about its file, in the widths of the header fields. */
  function MetaOf(task: SyncTask): Meta { Meta(task.fileSize % U64, task.mode % U32, task.mtime % U64) }

  /** Within these widths nothing is lost. */
  lemma MetaIsKept(task: SyncTask)
    requires 0 <= task.fileSize < U64 && 0 <= task.mode < U32 && 0 <= task.mtime < U64
    ensures MetaOf(task).fileSize == task.fileSize && MetaOf(task).mode == task.mode && MetaOf(task).mtime == task.mtime
  {
  }

  /**
   * The sizes fit together: a large file goes on from a staged front of it, and a small one is as
   * long as its task says and fits one block.
   */
  ghost predicate Suits(fs: Files, source: Local.Source, task: SyncTask, threshold: int) {
    task.eventType != EVENT_DELETE && source.Regular? ==>
      if task.fileSize > threshold then StagedPrefix(fs, task.relPath, source.content)
      else task.fileSize == |source.content| <= MAX_BLOCK
  }

  /** A commit replaces one file and leaves the others. */
  lemma CommitShows(fs: Files, gs: Files, paths: set<text>, rel: text, stamp: text, mirror: Mirror.Tree, c: text)
    requires Local.Separate(paths) && rel in paths && Local.Shows(fs, paths, mirror)
    requires Committed(fs, gs, Current(rel), Version(stamp, rel), c)
    ensures Local.Shows(gs, paths, mirror[rel := c])
  {
    hide Local.Separate, Local.Shows, Confined, Spot.Target, Spot.Temp, Spot.Parent;
    var at, v := Current(rel), Version(stamp, rel);
    assert {at.Temp(), at.Target(), v.Target(), v.Temp()} == {at.Target(), at.Temp(), v.Target(), v.Temp()};
    Local.CopyShows(fs, gs, paths, rel, stamp, mirror, c);
  }

  /**
   * What the files found under the mutex and the client's verdict have to do with each other, for
   * every kind of task: when it is done, what has changed; and, where nothing is cut and nothing
   * fails, exactly when it is done.
   */
  ghost predicate Served(mayFail: bool, fs: Files, gs: Files, source: Local.Source, lockable: bool, root: text,
          task: SyncTask, threshold: int, blockSize: nat, f: Fortune, ok: bool)
  {
    var rel, at, meta := task.relPath, Current(task.relPath), MetaOf(task);
    var s := if source.Regular? then source.content else [];
    if task.eventType == 3 then
      && (ok ==> gs == Trashed(fs, rel, f.stamp))
      && (gs == Trashed(fs, rel, f.stamp) || Confined(fs, gs, {}, {Trash(f.stamp, rel).Parent()}))
      && (!mayFail && Smooth(rel, s, f) ==> (ok <==> TrashWorks(fs, root, rel, f.stamp)))
    else if task.isDir then
      && (ok ==> gs == WithDirs(fs, at.Target()))
      && Confined(fs, gs, {}, {at.Target()})
      && (!mayFail && Smooth(rel, s, f) ==> (ok <==> Makeable(fs, at.Target())))
    else if source.Missing? || !lockable then gs == fs && (ok <==> source.Missing?)
    else if task.fileSize > threshold then
      StagedPrefix(fs, rel, s) ==>
      && (ok ==> Committed(fs, gs, at, Version(f.stamp, rel), s))
      && (Undisturbed(mayFail, fs, rel, s, blockSize, f) ==> (ok <==> |Content(fs, at.Temp())| < |s|))
    else
      && (ok ==> Committed(fs, gs, at, Version(f.stamp, rel), SmallPayload(s, meta)))
      && (TargetAsBefore(fs, gs, rel) || Get(gs, at.Target()) == Some(File(SmallPayload(s, meta))))
      && (!mayFail && Smooth(rel, s, f) ==> (ok <==>
        && Takeable(s, meta) && (Fnv.Hash(s) == 0 || Fnv.Hash(SmallPayload(s, meta)) == Fnv.Hash(s))
        && Opens(fs, root, rel, f.stamp) && !IsDir(WithDirs(fs, at.Parent()), at.Target())))
  }

  /** sync_task_remote for tasks without an old path; `lockable` says whether the source can be locked for reading. */
  method SyncTaskRemote(disk: Disk, source: Local.Source, lockable: bool, root: text, task: SyncTask, threshold: int,
          blockSize: nat, f: Fortune, views: Views, found: Files)
    returns (ok: bool)
    requires disk.Valid() && !disk.locked && Tree(found) && (forall k :: Tree(views(k))) && 0 < blockSize < U32
    requires Sendable(root, task.relPath, if source.Regular? then source.content else [])
    requires task.oldRelPath == []
    requires if task.isDir then task.mode % U32 / 0x1000 % 0x10 in {0, 4} else !IsDirMode(MetaOf(task).mode)
    requires var temp := Current(task.relPath).Temp();
      Get(found, temp) == Get(views(0), temp) == Get(disk.files, temp) && !IsDir(found, temp)
    modifies disk
    ensures Serviced(disk, found)
    ensures Served(disk.mayFail, Before(disk), disk.files, source, lockable, root, task, threshold, blockSize, f, ok)
  {
    hide Disciplined, Play, Tree, Trashed, TrashWorks, StagedPrefix, Committed, Undisturbed, SessionDone, WithDirs;
    hide Makeable, Spot.Temp, Spot.Target, Spot.Parent, TargetAsBefore, Opens, Takeable, SmallPayload, PathFits;
    hide IsDirMode, Confined, Fnv.Hash;
    var rel := task.relPath;
    if task.eventType == EVENT_DELETE {
      ok := RunDelete(disk, root, rel, f, views, found);
    } else if task.isDir {
      ok := RunDirCreate(disk, root, rel, MetaOf(task), f, views, found);
    } else if source.Missing? {
      ok := true;
    } else if !lockable {
      ok := false;
    } else if task.fileSize > threshold {
      var sent, a := RunSession(disk, root, rel, source.content, MetaOf(task), blockSize, f, views, found);
      ok := sent;
      SameStaged(Before(disk), found, rel, source.content);
    } else {
      ok := RunSmallUpload(disk, root, rel, source.content, MetaOf(task), f, views, found);
    }
  }

  /**
   * A task about a file that the client takes for done has changed the current files of the server
   * as the mirror model says, if the sizes fit together.
   */
  lemma RemoteIsSynced(mayFail: bool, fs: Files, gs: Files, source: Local.Source, lockable: bool, root: text,
          task: SyncTask, threshold: int, blockSize: nat, f: Fortune, w: Mirror.World, paths: set<text>)
    requires Served(mayFail, fs, gs, source, lockable, root, task, threshold, blockSize, f, true)
    requires Suits(fs, source, task, threshold) && !task.isDir
    requires Local.Separate(paths) && task.relPath in paths && !w.changed && Local.Shows(fs, paths, w.mirror)
    requires source == if task.relPath in w.source then Local.Regular(w.source[task.relPath]) else Local.Missing
    ensures Local.Shows(gs, paths, Mirror.Synced(w, task, None))
  {
    hide Trashed, TrashWorks, StagedPrefix, Committed, Undisturbed, WithDirs, Makeable, Spot.Temp, Spot.Target;
    hide Spot.Parent, TargetAsBefore, Opens, Takeable, Confined, Fnv.Hash, Local.Shows, Local.Separate, Smooth;
    var rel := task.relPath;
    if task.eventType == EVENT_DELETE {
      Local.TrashShows(fs, paths, rel, f.stamp, w.mirror);
    } else if source.Regular? {
      var s := source.content;
      assert s[..|s|] == s && (|s| <= MAX_BLOCK ==> |s| % U32 == |s|);
      CommitShows(fs, gs, paths, rel, f.stamp, w.mirror, source.content);
    }
  }
}
