/** What any connection, on any bytes, can and cannot do to the files under `current`. */
module Gates {
  import opened Bytes
  import opened Wire
  import opened Paths
  import opened FileTree
  import opened Store
  import opened Server
  import opened Connection
  import Fnv

  ghost predicate UnderCurrent(p: Path) { p != [] && p[0] == CURRENT }

  predicate IsUpload(job: Job) { job.Begin? || job.Blocks? }

  function UploadOf(job: Job): Upload
    requires IsUpload(job)
  {
    if job.Begin? then Receive(job.input, job.header.totalHash) else ReceiveFrom(job.header, job.input)
  }

  /** The whole-file hash is the one announced last that is not 0, or none was announced. */
  ghost predicate Checked(first: Header, end: Header, content: text) {
    if end.totalHash != 0 then Fnv.Hash(content) == end.totalHash
    else first.totalHash != 0 ==> Fnv.Hash(content) == first.totalHash
  }


  /** Before the commit an upload changes nothing under `current` but its staging file and missing directories. */
  lemma UploadTouches(fs: Files, gs: Files, rel: text, stamp: text, touched: set<Path>, x: Path)
    requires Confined(fs, gs, touched, {Current(rel).Parent(), Version(stamp, rel).Target()})
    requires UnderCurrent(x) && x !in touched
    ensures Get(gs, x) == Get(fs, x) || (x !in fs && IsDir(gs, x) && x <= Current(rel).Parent())
  {
    assert CURRENT != VERSIONS;
    assert Version(stamp, rel).Target()[0] == VERSIONS;
  }

  /**
   * Commit gate: after any upload, a file under `current` is as before, is the upload's staging
   * file, or is its target with content that passed the check against the total hashes.
   */
  lemma CommitGate(fs: Files, gs: Files, root: text, job: Job, stamp: text, ok: bool, clean: bool, x: Path, c: text)
    requires Handled(fs, gs, root, job, stamp, ok, clean) && IsUpload(job)
    requires UnderCurrent(x) && Get(gs, x) == Some(File(c))
    ensures
      || Get(fs, x) == Some(File(c))
      || x == Current(job.rel).Temp()
      || (ok && x == Current(job.rel).Target() && UploadOf(job).end.Some? &&
        Checked(job.header, UploadOf(job).end.value, c))
  {
    hide Confined, Receive, ReceiveFrom, Fnv.Hash, Assemble, Accepted, WithDirs, CurrentPath, UploadWorks, StreamWorks;
    hide Makeable;
    hide Spot.Target, Spot.Temp, Spot.Parent;
    var at, v := Current(job.rel), Version(stamp, job.rel);
    if PathFits(root, job.rel) {
      if job.Begin? && IsDirMode(job.header.mode) {
        DirTouches(fs, gs, at.Target(), x);
      } else {
        VersionsApart(job.rel, stamp, x);
        var touched := if ok then {at.Temp(), at.Target(), v.Target(), v.Temp()} else {at.Temp(), v.Target(), v.Temp()};
        if x !in touched {
          UploadTouches(fs, gs, job.rel, stamp, touched, x);
        }
      }
    }
  }

  lemma DirTouches(fs: Files, gs: Files, way: Path, x: Path)
    requires Confined(fs, gs, {}, {way})
    ensures Get(gs, x) == Get(fs, x) || (x !in fs && IsDir(gs, x))
  {
  }

  lemma VersionsApart(rel: text, stamp: text, x: Path)
    requires UnderCurrent(x)
    ensures x != Version(stamp, rel).Target() && x != Version(stamp, rel).Temp()
  {
    assert CURRENT != VERSIONS;
    assert Version(stamp, rel).Target()[0] == Version(stamp, rel).Temp()[0] == VERSIONS;
  }

  /** A failed upload leaves every file under `current` but its staging file alone, and adds none. */
  lemma FailedUploadChangesNoFile(fs: Files, gs: Files, root: text, job: Job, stamp: text, clean: bool, x: Path)
    requires Handled(fs, gs, root, job, stamp, false, clean) && IsUpload(job)
    requires UnderCurrent(x) && x != Current(job.rel).Temp()
    ensures x in fs ==> Get(gs, x) == Get(fs, x)
    ensures x !in fs ==> !IsFile(gs, x)
  {
    hide Confined, Receive, ReceiveFrom, Fnv.Hash, Assemble, Accepted, WithDirs, CurrentPath, UploadWorks, StreamWorks;
    hide Makeable;
    hide Spot.Target, Spot.Temp, Spot.Parent;
    var at, v := Current(job.rel), Version(stamp, job.rel);
    if PathFits(root, job.rel) {
      if job.Begin? && IsDirMode(job.header.mode) {
        DirTouches(fs, gs, at.Target(), x);
      } else {
        VersionsApart(job.rel, stamp, x);
        UploadTouches(fs, gs, job.rel, stamp, {at.Temp(), v.Target(), v.Temp()}, x);
      }
    }
  }

  /** Deletes and renames bring in no content: every file they leave was a file before. */
  lemma MovesAddNothing(fs: Files, gs: Files, root: text, job: Job, stamp: text, ok: bool, clean: bool, x: Path,
          c: text)
    requires Handled(fs, gs, root, job, stamp, ok, clean) && !IsUpload(job) && Get(gs, x) == Some(File(c))
    ensures exists y :: Get(fs, y) == Some(File(c))
  {
    hide Accepted, WithDirs, CurrentPath, TrashWorks, Makeable, Moved, Confined, Spot.Target, Spot.Parent, SplitRename;
    match job
    case Idle =>
    case Delete(rel) =>
      var way := Trash(stamp, rel).Parent();
      if ok {
        MoveAddsNothing(fs, way, Current(rel).Target(), Trash(stamp, rel).Target(), x, c);
      } else {
        DirTouches(fs, gs, way, x);
      }
    case Move(payload) =>
      if Renamable(root, payload) {
        var (a, b) := SplitRename(payload).value;
        if ok {
          MoveAddsNothing(fs, Current(b).Parent(), Current(a).Target(), Current(b).Target(), x, c);
        } else {
          DirTouches(fs, gs, Current(b).Parent(), x);
        }
      }
  }

  lemma MoveAddsNothing(fs: Files, way: Path, p: Path, q: Path, x: Path, c: text)
    ensures Get(fs, x) == Some(File(c)) ==> exists y :: Get(fs, y) == Some(File(c))
    ensures Get(WithDirs(fs, way), x) == Some(File(c)) ==> exists y :: Get(fs, y) == Some(File(c))
    ensures Get(Moved(WithDirs(fs, way), p, q), x) == Some(File(c)) ==> exists y :: Get(fs, y) == Some(File(c))
  {
    hide Moved, WithDirs;
    var made := WithDirs(fs, way);
    MovedAt(made, p, q, x);
    WithDirsAt(fs, way, x);
    WithDirsAt(fs, way, Back(p, q, x));
  }

  // ---- Which path a block stream uses ------------------------------------------------------------------------

  /** Greetings and offset queries, the messages after which a connection goes on. */
  ghost predicate Prelude(root: text, f: Frame) {
    WellFormed(f) &&
      (f.header.msgType == MSG_HELLO || (f.header.msgType == MSG_QUERY_OFFSET && PathFits(root, CString(f.payload))))
  }

  function LastQueried(frames: seq<Frame>, last: text): text {
    if frames == [] then last
    else
      var f := frames[|frames| - 1];
      if f.header.msgType == MSG_QUERY_OFFSET then CString(f.payload) else LastQueried(frames[..|frames| - 1], last)
  }

  lemma {:induction false} LastQueriedFront(frames: seq<Frame>, last: text)
    requires frames != []
    ensures LastQueried(frames, last) ==
      LastQueried(frames[1..], if frames[0].header.msgType == MSG_QUERY_OFFSET then CString(frames[0].payload)
        else last)
  {
    hide CString;
    if |frames| > 1 {
      var init := frames[..|frames| - 1];
      assert frames[1..][..|frames| - 2] == init[1..];
      LastQueriedFront(init, last);
    }
  }

  /** One message of the prelude leads the loop on. */
  lemma NextAfterPrelude(root: text, f: Frame, rest: text, last: text)
    requires Prelude(root, f)
    ensures NextJob(root, EncodeFrame(f) + rest, last) ==
      NextJob(root, rest, if f.header.msgType == MSG_QUERY_OFFSET then CString(f.payload) else last)
  {
    hide EncodeHeader, FrontHeader, CString, PathFits;
    var s := EncodeFrame(f) + rest;
    assert s == EncodeHeader(f.header) + (f.payload + rest);
    FrontOfEncoded(f.header, f.payload + rest);
    var n := HEADER_SIZE + f.header.pathLen;
    assert s[HEADER_SIZE..n] == f.payload && s[n..] == rest;
  }

  /** A block stream goes to the path of the latest offset query before it, and without one nowhere. */
  lemma {:induction false} BlocksUseLatestQuery(root: text, frames: seq<Frame>, h: Header, input: text, last: text)
    requires forall f :: f in frames ==> Prelude(root, f)
    requires ValidHeader(h) && h.msgType == MSG_FILE_BLOCK && h.pathLen <= |input|
    ensures NextJob(root, EncodeFrames(frames) + (EncodeHeader(h) + input), last) ==
      if LastQueried(frames, last) == [] then Idle else Blocks(h, LastQueried(frames, last), input[h.pathLen..])
    decreases |frames|
  {
    hide EncodeHeader, FrontHeader, CString, EncodeFrame, Prelude;
    var tail := EncodeHeader(h) + input;
    if frames == [] {
      assert EncodeFrames(frames) + tail == tail;
      FrontOfEncoded(h, input);
      assert tail[HEADER_SIZE + h.pathLen..] == input[h.pathLen..];
    } else {
      var f := frames[0];
      assert f in frames;
      assert EncodeFrames(frames) + tail == EncodeFrame(f) + (EncodeFrames(frames[1..]) + tail) by {
        ConcatAssociative(EncodeFrame(f), EncodeFrames(frames[1..]), tail);
      }
      NextAfterPrelude(root, f, EncodeFrames(frames[1..]) + tail, last);
      LastQueriedFront(frames, last);
      BlocksUseLatestQuery(root, frames[1..], h, input, if f.header.msgType == MSG_QUERY_OFFSET then CString(f.payload)
        else last);
    }
  }
}
