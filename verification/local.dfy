/** Local mode: sync_task_local of src/transfer.c, run by one worker at a time. */
module Local {
  import opened Bytes
  import opened Paths
  import opened Tasks
  import opened FileTree
  import opened Serial
  import opened Store
  import opened Server
  import Fnv
  import Mirror

  /** What the worker finds at the task's source path. */
  datatype Source = Missing | Regular(content: text)

  // ---- One file ----------------------------------------------------------------------------------------

  /** The backup does not matter for the copy. */
  lemma StillPlaceable(fs: Files, gs: Files, rel: text, stamp: text, len: nat)
    requires Confined(fs, gs, {Version(stamp, rel).Target(), Version(stamp, rel).Temp()},
      {Version(stamp, rel).Target()})
    requires Accepted(rel) && IsDir(fs, []) && IsDir(gs, [])
    ensures Placeable(gs, Current(rel), len) <==> Placeable(fs, Current(rel), len)
  {
    hide Accepted, Placeable, Confined, Spot.Target, Spot.Temp, Spot.Parent;
    VersionsElsewhere(fs, gs, rel, stamp);
    var p := Current(rel).Parent();
    forall k | 0 <= k <= |p|
      ensures Get(gs, p[..k]) == Get(fs, p[..k])
    {
      if k > 0 {
        PrefixElsewhere(fs, gs, rel, stamp, k);
      } else {
        assert p[..0] == [];
      }
    }
    PlaceableAgrees(fs, gs, Current(rel), len);
  }

  lemma PrefixElsewhere(fs: Files, gs: Files, rel: text, stamp: text, k: nat)
    requires Confined(fs, gs, {Version(stamp, rel).Target(), Version(stamp, rel).Temp()},
      {Version(stamp, rel).Target()})
    requires 0 < k <= |Current(rel).Parent()|
    ensures Get(gs, Current(rel).Parent()[..k]) == Get(fs, Current(rel).Parent()[..k])
  {
    var x, v := Current(rel).Parent()[..k], Version(stamp, rel);
    assert CURRENT != VERSIONS;
    assert x[0] == CURRENT && v.Target()[0] == v.Temp()[0] == VERSIONS;
    forall q | OnWay(q, {v.Target()})
      ensures q == [] || q[0] == VERSIONS
    {
    }
  }

  /** When syncing a regular file has no reason in the files to fail. */
  ghost predicate FileSyncs(fs: Files, root: text, rel: text, stamp: text) {
    CurrentPath(root, rel).Some? && BackupWorks(fs, root, rel, stamp) &&
      Placeable(fs, Current(rel), |CurrentPath(root, rel).value|)
  }

  /** The target holds the source's content and what it held before is in the version. */
  ghost predicate Replaced(fs: Files, gs: Files, rel: text, stamp: text, s: text) {
    && Get(gs, Current(rel).Target()) == Some(File(s))
    && (IsFile(fs, Current(rel).Target()) ==> Get(gs, Version(stamp, rel).Target()) == Get(fs, Current(rel).Target()))
  }

  /** Outside the file, its version and their staging files, only directories on the way to these were made. */
  ghost predicate OnlyTouches(fs: Files, gs: Files, rel: text, stamp: text) {
    var at, v := Current(rel), Version(stamp, rel);
    Confined(fs, gs, {at.Target(), at.Temp(), v.Target(), v.Temp()}, {at.Parent(), v.Target()})
  }

  lemma TouchesNothing(fs: Files, rel: text, stamp: text)
    ensures OnlyTouches(fs, fs, rel, stamp)
  {
  }

  lemma SavedOnlyTouches(fs: Files, gs: Files, rel: text, stamp: text)
    requires Confined(fs, gs, {Version(stamp, rel).Target(), Version(stamp, rel).Temp()},
      {Version(stamp, rel).Target()})
    ensures OnlyTouches(fs, gs, rel, stamp)
  {
    var at, v := Current(rel), Version(stamp, rel);
    ConfinedWider(fs, gs, {v.Target(), v.Temp()}, {at.Target(), at.Temp(), v.Target(), v.Temp()}, {v.Target()},
      {at.Parent(), v.Target()});
  }

  lemma CopyOnlyTouches(fs: Files, mid: Files, gs: Files, rel: text, stamp: text, ok: bool)
    requires OnlyTouches(fs, mid, rel, stamp)
    requires var at := Current(rel);
      Confined(mid, gs, if ok then {at.Temp(), at.Target()} else {at.Temp()}, {at.Parent()})
    ensures OnlyTouches(fs, gs, rel, stamp)
  {
    var at, v := Current(rel), Version(stamp, rel);
    var touched, ways := {at.Target(), at.Temp(), v.Target(), v.Temp()}, {at.Parent(), v.Target()};
    var some := if ok then {at.Temp(), at.Target()} else {at.Temp()};
    ConfinedTrans(fs, mid, gs, touched, some, ways, {at.Parent()});
    ConfinedWider(fs, gs, touched + some, touched, ways + {at.Parent()}, ways);
  }

  /**
   * sync_local_file. The first hash reads the source as it is then, and the copy reads `copied`,
   * which may differ if the source changes in between. The hashes are compared only after the
   * rename, so a failure may leave the target replaced, but never without its old content in the
   * version, and never with anything but what was copied.
   */
  method SyncLocalFile(disk: Disk, source: Source, copied: text, root: text, rel: text, stamp: text) returns (ok: bool)
    requires disk.Valid() && disk.locked && Accepted(rel) && |copied| <= MAX_OFFSET
    modifies disk
    ensures disk.Continues()
    ensures source.Missing? ==> ok && disk.files == old(disk.files)
    ensures source.Regular? && ok ==>
      && Replaced(old(disk.files), disk.files, rel, stamp, copied)
      && (disk.faulted || Fnv.Hash(source.content) == Fnv.Hash(copied))
    ensures Get(disk.files, Current(rel).Target()) == Get(old(disk.files), Current(rel).Target())
      || (Current(rel).Target() !in old(disk.files) && IsDir(disk.files, Current(rel).Target()))
      || (source.Regular? && Replaced(old(disk.files), disk.files, rel, stamp, copied))
    ensures OnlyTouches(old(disk.files), disk.files, rel, stamp)
    ensures source.Regular? && !disk.faulted ==> (ok <==>
      FileSyncs(old(disk.files), root, rel, stamp) && Fnv.Hash(source.content) == Fnv.Hash(copied))
  {
    hide OnlyTouches, Disciplined, Play, Tree, Confined, BackupWorks, CopyWorks, Placeable, Accepted, CurrentPath;
    hide Fnv.Hash;
    hide Spot.Target, Spot.Temp, Spot.Parent;
    ghost var fs := disk.files;
    var at := Current(rel);
    TouchesNothing(fs, rel, stamp);
    if source.Missing? {
      return true;
    }
    var available := disk.Other();
    if !available {
      return false;
    }
    var dst := CurrentPath(root, rel);
    if dst.None? {
      return false;
    }
    ok := BackupOldVersion(disk, root, rel, stamp);
    ghost var saved := disk.files;
    SavedOnlyTouches(fs, saved, rel, stamp);
    TreeOf(disk);
    RootsAreDirs(fs, saved);
    if !ok {
      return;
    }
    StillPlaceable(fs, saved, rel, stamp, |dst.value|);
    PlaceableCopies(saved, copied, at, |dst.value|);
    AreasDiffer(stamp, rel);
    SpotParts(at);
    var readable := disk.Other();
    var before := if readable then Fnv.Hash(source.content) else 0;
    ok := CopyFileAtomic(disk, Some(copied), at, |dst.value|);
    CopyTouches(saved, disk.files, at, Version(stamp, rel).Target(), ok);
    CopyOnlyTouches(fs, saved, disk.files, rel, stamp, ok);
    if !ok {
      return;
    }
    var after := disk.HashFile(at.Target());
    ok := before == after;
  }

  lemma RootsAreDirs(fs: Files, gs: Files)
    requires Tree(fs) && Tree(gs)
    ensures IsDir(fs, []) && IsDir(gs, [])
  {
  }

  /** What a copy to `at` does elsewhere: to the target if it fails, to a version in any case. */
  lemma CopyTouches(fs: Files, gs: Files, at: Spot, x: Path, ok: bool)
    requires Confined(fs, gs, if ok then {at.Temp(), at.Target()} else {at.Temp()}, {at.Parent()})
    ensures x in fs && x != at.Temp() && x != at.Target() ==> Get(gs, x) == Get(fs, x)
    ensures !ok && at.Target() != at.Temp() ==>
      Get(gs, at.Target()) == Get(fs, at.Target()) || (at.Target() !in fs && IsDir(gs, at.Target()))
  {
  }

  // ---- Any task ---------------------------------------------------------------------------------------------

  /** The rename branch of sync_task_local; after failure at most directories have been made. */
  method TryRename(disk: Disk, root: text, oldRel: text, rel: text) returns (done: bool)
    requires disk.Valid() && disk.locked
    modifies disk
    ensures disk.Continues()
    ensures done ==>
      && RenameWorks(old(disk.files), root, oldRel, rel)
      && disk.files ==
        Effect(Rename(Current(oldRel).Target(), Current(rel).Target()),
        WithDirs(old(disk.files), Current(rel).Parent()))
    ensures !done ==> Confined(old(disk.files), disk.files, {}, {Current(rel).Parent()})
    ensures !disk.faulted ==> (done <==> RenameWorks(old(disk.files), root, oldRel, rel))
  {
    hide Disciplined, Play, Tree, Confined, WithDirs, Makeable, Succeeds, Effect, CurrentPath;
    hide Spot.Target, Spot.Parent;
    ghost var fs := disk.files;
    var parent := Current(rel).Parent();
    ConfinedRefl(fs, {}, {parent});
    if CurrentPath(root, oldRel).None? || CurrentPath(root, rel).None? {
      return false;
    }
    TreeOf(disk);
    done := EnsureDirExists(disk, parent);
    if !done {
      return;
    }
    MadeOnce(fs, parent);
    ghost var made := disk.files;
    done := SafeRename(disk, Current(oldRel).Target(), Current(rel).Target(), parent);
    if !done {
      MadeThenConfined(fs, made, disk.files, parent);
    }
  }

  /** What syncing the new path of a task does to the files `fs`. */
  ghost predicate Synced(fs: Files, gs: Files, source: Source, copied: text, root: text, task: SyncTask, stamp: text,
          ok: bool, clean: bool)
  {
    var rel, target := task.relPath, Current(task.relPath).Target();
    if task.isDir then
      && (ok ==> gs == WithDirs(fs, target))
      && Confined(fs, gs, {}, {target})
      && (clean ==> (ok <==> CurrentPath(root, rel).Some? && Makeable(fs, target)))
    else if source.Missing? then ok && gs == fs
    else
      && (ok ==>
        Replaced(fs, gs, rel, stamp, copied) && (!clean || Fnv.Hash(source.content) == Fnv.Hash(copied)))
      && (Get(gs, target) == Get(fs, target) || (target !in fs && IsDir(gs, target)) ||
        Replaced(fs, gs, rel, stamp, copied))
      && OnlyTouches(fs, gs, rel, stamp)
      && (clean ==> (ok <==> FileSyncs(fs, root, rel, stamp) && Fnv.Hash(source.content) == Fnv.Hash(copied)))
  }

  /**
   * sync_task_local. A rename that cannot be done as one is followed by syncing the new path, on
   * the files `mid` in which at most directories were made.
   */
  method SyncTaskLocal(disk: Disk, source: Source, copied: text, root: text, task: SyncTask, stamp: text)
    returns (ok: bool, ghost moved: bool, ghost mid: Files)
    requires disk.Valid() && disk.locked && |copied| <= MAX_OFFSET
    modifies disk
    ensures disk.Continues()
    ensures !Accepted(task.relPath) ==> !ok && disk.files == old(disk.files)
    ensures Accepted(task.relPath) && task.eventType == EVENT_DELETE ==>
      && (ok ==> disk.files == Trashed(old(disk.files), task.relPath, stamp))
      && (!ok ==> Confined(old(disk.files), disk.files, {}, {Trash(stamp, task.relPath).Parent()}))
      && (!disk.faulted ==> (ok <==> TrashWorks(old(disk.files), root, task.relPath, stamp)))
    ensures Accepted(task.relPath) && task.eventType != EVENT_DELETE && moved ==>
      && ok && task.eventType == EVENT_RENAME && task.oldRelPath != []
      && RenameWorks(old(disk.files), root, task.oldRelPath, task.relPath)
      && disk.files == Effect(Rename(Current(task.oldRelPath).Target(), Current(task.relPath).Target()),
        WithDirs(old(disk.files), Current(task.relPath).Parent()))
    ensures Accepted(task.relPath) && task.eventType != EVENT_DELETE && !moved ==>
      && Confined(old(disk.files), mid, {}, {Current(task.relPath).Parent()})
      && Synced(mid, disk.files, source, copied, root, task, stamp, ok, !disk.faulted)
    ensures task.oldRelPath == [] ==> mid == old(disk.files) && !moved
    ensures task.eventType == EVENT_RENAME && task.oldRelPath != [] && Accepted(task.relPath) && !disk.faulted ==>
      (moved <==> RenameWorks(old(disk.files), root, task.oldRelPath, task.relPath))
  {
    hide OnlyTouches, Disciplined, Play, Tree, Confined, WithDirs, Makeable, CurrentPath, Accepted, TrashWorks, Trashed;
    hide RenameWorks, FileSyncs, Replaced, Effect, Fnv.Hash;
    hide Spot.Target, Spot.Temp, Spot.Parent;
    moved, mid := false, disk.files;
    if !Accepted(task.relPath) {
      return false, moved, mid;
    }
    if task.eventType == EVENT_DELETE {
      ok := MoveToTrash(disk, root, task.relPath, stamp);
      return;
    }
    ConfinedRefl(disk.files, {}, {Current(task.relPath).Parent()});
    if task.eventType == EVENT_RENAME && task.oldRelPath != [] {
      var done := TryRename(disk, root, task.oldRelPath, task.relPath);
      moved, mid := done, disk.files;
      if done {
        return true, moved, mid;
      }
    }
    if task.isDir {
      ConfinedRefl(mid, {}, {Current(task.relPath).Target()});
      if CurrentPath(root, task.relPath).None? {
        return false, moved, mid;
      }
      ok := EnsureDirExists(disk, Current(task.relPath).Target());
    } else {
      ok := SyncLocalFile(disk, source, copied, root, task.relPath, stamp);
    }
  }

  // ---- The worker's step in the mirror model -----------------------------------------------------------------

  /** What the mirror model sees of the files: the content of the current file of each of these paths. */
  ghost predicate Shows(fs: Files, paths: set<text>, mirror: Mirror.Tree) {
    forall p :: p in paths ==>
      Mirror.Get(mirror, p) == if IsFile(fs, Current(p).Target()) then Some(fs[Current(p).Target()].content) else None
  }

  /** Different files: none is in another one's place, below it, or its staging file. */
  ghost predicate Separate(paths: set<text>) {
    && (forall p :: p in paths ==> Accepted(p))
    && (forall p, q :: p in paths && q in paths && p != q ==>
      !(Current(p).Target() <= Current(q).Target()) && Current(p).Temp() != Current(q).Target())
  }

  /** Trashing one file leaves the others. */
  lemma TrashShows(fs: Files, paths: set<text>, rel: text, stamp: text, mirror: Mirror.Tree)
    requires Separate(paths) && rel in paths && Shows(fs, paths, mirror)
    ensures Shows(Trashed(fs, rel, stamp), paths, mirror - {rel})
  {
    hide Accepted, Moved, WithDirs, Spot.Parent, Names;
    var src, dst, way := Current(rel).Target(), Trash(stamp, rel).Target(), Trash(stamp, rel).Parent();
    assert CURRENT != TRASH;
    forall p | p in paths
      ensures Mirror.Get(mirror - {rel}, p) ==
        if IsFile(Trashed(fs, rel, stamp), Current(p).Target())
          then Some(Trashed(fs, rel, stamp)[Current(p).Target()].content) else None
    {
      var x := Current(p).Target();
      assert x[0] == CURRENT && dst[0] == TRASH;
      if src in fs {
        if p == rel {
          MoveTakes(fs, way, src, dst, x);
        } else {
          MoveLeaves(fs, way, src, dst, x);
        }
      }
    }
  }

  /** Replacing one file leaves the others. */
  lemma CopyShows(fs: Files, gs: Files, paths: set<text>, rel: text, stamp: text, mirror: Mirror.Tree, c: text)
    requires Separate(paths) && rel in paths && Shows(fs, paths, mirror)
    requires OnlyTouches(fs, gs, rel, stamp) && Get(gs, Current(rel).Target()) == Some(File(c))
    ensures Shows(gs, paths, mirror[rel := c])
  {
    hide Accepted, Confined, Spot.Parent, Names;
    var at, v := Current(rel), Version(stamp, rel);
    assert CURRENT != VERSIONS;
    forall p | p in paths && p != rel
      ensures SameFile(fs, gs, Current(p).Target())
    {
      var x := Current(p).Target();
      assert x[0] == CURRENT && v.Target()[0] == v.Temp()[0] == VERSIONS;
      assert x != at.Target() && x != at.Temp();
      Untouched(fs, gs, {at.Target(), at.Temp(), v.Target(), v.Temp()}, {at.Parent(), v.Target()}, x);
    }
  }

  /**
   * A successful sync_task_local does to the current files what the mirror model's worker does, with
   * what was copied as torn content if the file changed meanwhile. Without faults it fails only for
   * a reason in the files, or because the hash of what was copied differs.
   */
  method SyncIsSynced(disk: Disk, source: Source, copied: text, root: text, task: SyncTask, stamp: text,
          ghost w: Mirror.World, ghost paths: set<text>)
    returns (ok: bool)
    requires disk.Valid() && disk.locked && |copied| <= MAX_OFFSET
    requires Separate(paths) && task.relPath in paths && task.oldRelPath == [] && !task.isDir
    requires !w.changed ==> source == if task.relPath in w.source then Regular(w.source[task.relPath]) else Missing
    requires !w.changed && source.Regular? ==> copied == source.content
    requires Shows(disk.files, paths, w.mirror)
    modifies disk
    ensures disk.Continues()
    ensures ok ==>
      Shows(disk.files, paths, Mirror.Synced(w, task, if source.Regular? then Some(copied) else None))
    ensures !disk.faulted ==> (ok <==>
      if task.eventType == EVENT_DELETE then TrashWorks(old(disk.files), root, task.relPath, stamp)
      else if source.Missing? then true
      else FileSyncs(old(disk.files), root, task.relPath, stamp) && Fnv.Hash(source.content) == Fnv.Hash(copied))
  {
    hide OnlyTouches, Disciplined, Play, Tree, Shows, Accepted, TrashWorks, Trashed, FileSyncs, Spot.Target, Spot.Temp;
    hide Spot.Parent, Fnv.Hash;
    ghost var fs := disk.files;
    ghost var moved, mid;
    ok, moved, mid := SyncTaskLocal(disk, source, copied, root, task, stamp);
    if ok {
      if task.eventType == EVENT_DELETE {
        TrashShows(fs, paths, task.relPath, stamp, w.mirror);
      } else if source.Regular? {
        CopyShows(fs, disk.files, paths, task.relPath, stamp, w.mirror, copied);
      }
    }
  }
}
