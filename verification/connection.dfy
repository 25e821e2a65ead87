/** Connections: replies, the mutating handlers with their locking, and the message loop (src/server.c). */
module Connection {
  import opened Bytes
  import opened Io
  import opened Wire
  import opened Paths
  import opened FileTree
  import opened Serial
  import opened Store
  import opened Server

  // ---- Replies -------------------------------------------------------------------------------------------

  function AckHeader(offset: u64): Header { InitHeader(MSG_ACK).(offset := offset) }
  function ErrorHeader(m: text): Header
    requires |m| <= MAX_NET_PATH
  {
    InitHeader(MSG_ERROR).(pathLen := |m|)
  }

  /** What of `bytes` gets onto a connection that takes `room` more. */
  function Clip(bytes: text, room: nat): text { bytes[..Min(|bytes|, room)] }

  lemma ClipBehind(before: text, bytes: text, room: nat)
    requires |before| <= room
    ensures Clip(before + bytes, room) == before + Clip(bytes, room - |before|)
  {
  }

  /** A success is answered by an acknowledgement, a failure by an error message. */
  ghost predicate Answers(reply: text, ok: bool, offset: u64) {
    if ok then reply == EncodeHeader(AckHeader(offset))
    else exists m: text | |m| <= MAX_NET_PATH :: reply == EncodeHeader(ErrorHeader(m)) + m
  }

  /** `reply` goes out as far as the connection lets it. */
  twostate predicate Sent(sink: Sink, reply: text)
    reads sink
  {
    && sink.sent == old(sink.sent) + Clip(reply, old(sink.room))
    && sink.room == old(sink.room) - Min(|reply|, old(sink.room))
  }

  method SendAck(sink: Sink, offset: u64) returns (ok: bool, ghost reply: text)
    modifies sink
    ensures ok <==> HEADER_SIZE <= old(sink.room)
    ensures Sent(sink, reply) && reply == EncodeHeader(AckHeader(offset))
  {
    hide EncodeHeader;
    reply := EncodeHeader(AckHeader(offset));
    ok := SendHeader(sink, AckHeader(offset));
  }

  method SendError(sink: Sink, m: text) returns (ghost reply: text)
    requires |m| <= MAX_NET_PATH
    modifies sink
    ensures Sent(sink, reply) && reply == EncodeHeader(ErrorHeader(m)) + m
  {
    hide EncodeHeader;
    ghost var room := sink.room;
    ghost var header := EncodeHeader(ErrorHeader(m));
    reply := header + m;
    var ok := SendHeader(sink, ErrorHeader(m));
    if ok {
      ok := sink.WriteFull(m);
      ClipBehind(header, m, room);
    } else {
      assert (header + m)[..room] == header[..room];
    }
  }

  method Reply(sink: Sink, ok: bool, offset: u64, m: text) returns (ghost reply: text)
    requires |m| <= MAX_NET_PATH
    modifies sink
    ensures Sent(sink, reply) && Answers(reply, ok, offset)
  {
    if ok {
      var _, r := SendAck(sink, offset);
      reply := r;
    } else {
      reply := SendError(sink, m);
    }
  }

  // ---- Handlers ---------------------------------------------------------------------------------------------

  /**
   * A handler takes the mutex at most once, finding `found`, and has always given it back. Without
   * the mutex it changes nothing.
   */
  twostate predicate Serviced(disk: Disk, found: Files)
    reads disk
  {
    && disk.Valid() && !disk.locked
    && old(disk.sections) <= disk.sections <= old(disk.sections) + 1
    && (disk.sections == old(disk.sections) ==> disk.files == old(disk.files))
    && (disk.sections > old(disk.sections) ==> disk.start == found)
    && (old(disk.faulted) ==> disk.faulted)
  }

  /** The files a handler started from: those it found when it took the mutex, if it did. */
  twostate function Before(disk: Disk): Files
    reads disk
  {
    if disk.sections == old(disk.sections) then old(disk.files) else disk.start
  }

  predicate IsDirMode(mode: u32) { mode / 0x1000 % 0x10 == 4 }

  /** The target string and the staging string both fit their buffers. */
  predicate PathFits(root: text, rel: text) {
    CurrentPath(root, rel).Some? && |CurrentPath(root, rel).value| + |SYNCING| < MAX_PATH_LEN
  }

  /** Exactly the proper paths that leave room for the staging suffix fit, in whatever directory they are. */
  lemma PathFitsIff(root: text, rel: text)
    ensures PathFits(root, rel) <==>
      && Proper(Components(rel))
      && |root| + |Glue(root)| + |Ascii("current/")| + |rel| + |Ascii(".syncing")| < 512
  {
    Spelled();
    hide Proper, Components, CurrentPath, Ascii, Glue;
    CurrentPathIs(root, rel);
  }

  lemma FitsIsAccepted(root: text, rel: text)
    requires PathFits(root, rel)
    ensures Accepted(rel)
  {
  }

  /** What a FILE_BEGIN with `input` behind it does to the files. */
  ghost predicate Begun(fs: Files, gs: Files, root: text, h: Header, rel: text, stamp: text, input: text, ok: bool,
          clean: bool)
  {
    if !PathFits(root, rel) then gs == fs && !ok
    else if IsDirMode(h.mode) then
      && (ok ==> gs == WithDirs(fs, Current(rel).Target()))
      && Confined(fs, gs, {}, {Current(rel).Target()})
      && (clean ==> (ok <==> Makeable(fs, Current(rel).Target())))
    else Uploaded(fs, gs, root, rel, stamp, Receive(input, h.totalHash), h.totalHash, ok, clean)
  }

  method HandleFileBegin(src: Source, sink: Sink, disk: Disk, header: Header, root: text, rel: text, stamp: text,
          found: Files)
    returns (ok: bool, ghost reply: text)
    requires src.Valid() && disk.Valid() && !disk.locked && Tree(found)
    modifies src, sink, disk
    ensures src.Valid() && Serviced(disk, found)
    ensures Begun(Before(disk), disk.files, root, header, rel, stamp, old(src.Rest()), ok, !disk.faulted)
    ensures Sent(sink, reply) && Answers(reply, ok, if IsDirMode(header.mode) then 0 else header.fileSize)
  {
    hide Disciplined, Play, Tree, Confined, WithDirs, Makeable, Uploaded, Receive, Answers, Accepted, Spot.Target;
    if !PathFits(root, rel) {
      reply := Reply(sink, false, if IsDirMode(header.mode) then 0 else header.fileSize, Ascii("invalid path"));
      return false, reply;
    }
    disk.Lock(found);
    if IsDirMode(header.mode) {
      ok := EnsureDirExists(disk, Current(rel).Target());
    } else {
      ok := StoreUpload(src, disk, header, root, rel, stamp);
    }
    disk.Unlock();
    reply := Reply(sink, ok, if IsDirMode(header.mode) then 0 else header.fileSize, Ascii("file receive failed"));
  }

  /** What a FILE_BLOCK outside an upload, with `input` behind its header, does to the files. */
  ghost predicate Resumed(fs: Files, gs: Files, root: text, h: Header, rel: text, stamp: text, input: text, ok: bool,
          clean: bool)
  {
    if !PathFits(root, rel) then gs == fs && !ok
    else Streamed(fs, gs, root, rel, stamp, ReceiveFrom(h, input), h.totalHash, ok, clean)
  }

  method HandleLargeBlockStream(src: Source, sink: Sink, disk: Disk, first: Header, root: text, rel: text, stamp: text,
          found: Files)
    returns (ok: bool, ghost reply: text)
    requires src.Valid() && disk.Valid() && !disk.locked && Tree(found)
    modifies src, sink, disk
    ensures src.Valid() && Serviced(disk, found)
    ensures Resumed(Before(disk), disk.files, root, first, rel, stamp, old(src.Rest()), ok, !disk.faulted)
    ensures Sent(sink, reply) && Answers(reply, ok, first.fileSize)
  {
    hide Disciplined, Play, Tree, Streamed, ReceiveFrom, Answers, Accepted;
    if !PathFits(root, rel) {
      reply := Reply(sink, false, first.fileSize, Ascii("invalid path"));
      return false, reply;
    }
    disk.Lock(found);
    ok := StoreStream(src, disk, first, root, rel, stamp);
    disk.Unlock();
    reply := Reply(sink, ok, first.fileSize, Ascii("large file receive failed"));
  }

  /** What a FILE_DELETE does to the files. */
  ghost predicate Deleted(fs: Files, gs: Files, root: text, rel: text, stamp: text, ok: bool, clean: bool) {
    && (ok ==> Accepted(rel) && gs == Trashed(fs, rel, stamp))
    && (ok && Current(rel).Target() in fs ==>
      Succeeds(Rename(Current(rel).Target(), Trash(stamp, rel).Target()), WithDirs(fs, Trash(stamp, rel).Parent())))
    && (!ok ==> Confined(fs, gs, {}, {Trash(stamp, rel).Parent()}))
    && (clean ==> (ok <==> TrashWorks(fs, root, rel, stamp)))
  }

  method HandleFileDelete(sink: Sink, disk: Disk, root: text, rel: text, stamp: text, found: Files)
    returns (ok: bool, ghost reply: text)
    requires disk.Valid() && !disk.locked && Tree(found)
    modifies sink, disk
    ensures Serviced(disk, found)
    ensures Deleted(Before(disk), disk.files, root, rel, stamp, ok, !disk.faulted)
    ensures Sent(sink, reply) && Answers(reply, ok, 0)
  {
    hide Disciplined, Play, Tree, Confined, WithDirs, Trashed, TrashWorks, Answers, Accepted, Succeeds, Spot.Target;
    disk.Lock(found);
    ok := MoveToTrash(disk, root, rel, stamp);
    disk.Unlock();
    reply := Reply(sink, ok, 0, Ascii("delete failed"));
  }

  // ---- Renames ---------------------------------------------------------------------------------------------------

  /** send_remote_rename's payload: the two paths with a NUL between them. */
  function PackRename(oldRel: text, newRel: text): Option<text> {
    if oldRel == [] || |oldRel| + 1 + |newRel| > MAX_NET_PATH then None else Some(oldRel + [NUL] + newRel)
  }

  /** How server_handle_file_rename takes a payload apart. */
  function SplitRename(payload: text): Option<(text, text)> {
    var oldRel := CString(payload);
    if |oldRel| + 1 >= |payload| then None else Some((oldRel, CString(payload[|oldRel| + 1..])))
  }

  /** The server gets back exactly the two paths the client packed. */
  lemma SplitOfPacked(oldRel: text, newRel: text)
    requires NulFree(oldRel) && NulFree(newRel) && oldRel != [] && newRel != []
    requires |oldRel| + 1 + |newRel| <= MAX_NET_PATH
    ensures PackRename(oldRel, newRel).Some? && SplitRename(PackRename(oldRel, newRel).value) == Some((oldRel, newRel))
  {
    var payload := oldRel + [NUL] + newRel;
    assert payload == oldRel + ([NUL] + newRel);
    CStringOfNulFree(oldRel, [NUL] + newRel);
    CStringOfNulFree(newRel, []);
    assert payload[|oldRel| + 1..] == newRel;
  }

  /** A payload is refused for its shape exactly when no NUL has anything behind it. */
  lemma SplitRefusedIff(payload: text)
    ensures SplitRename(payload).None? <==> forall i :: 0 <= i < |payload| - 1 ==> payload[i] != NUL
  {
    var oldRel := CString(payload);
    assert forall i :: 0 <= i < |oldRel| ==> payload[i] == oldRel[i] && oldRel[i] in oldRel;
  }

  /** Where a rename may go: both paths accepted and short enough. */
  predicate Renamable(root: text, payload: text) {
    SplitRename(payload).Some? &&
    CurrentPath(root, SplitRename(payload).value.0).Some? && CurrentPath(root, SplitRename(payload).value.1).Some?
  }

  /** What a FILE_RENAME does to the files. */
  ghost predicate Renamed(fs: Files, gs: Files, root: text, payload: text, ok: bool, clean: bool) {
    if !Renamable(root, payload) then gs == fs && !ok
    else
      var (a, b) := SplitRename(payload).value;
      var made, op := WithDirs(fs, Current(b).Parent()), Rename(Current(a).Target(), Current(b).Target());
      && (ok ==> Succeeds(op, made) && gs == Effect(op, made))
      && (!ok ==> Confined(fs, gs, {}, {Current(b).Parent()}))
      && (clean ==> (ok <==> Makeable(fs, Current(b).Parent()) && Succeeds(op, made)))
  }

  method HandleFileRename(sink: Sink, disk: Disk, root: text, payload: text, found: Files)
    returns (ok: bool, ghost reply: text)
    requires disk.Valid() && !disk.locked && Tree(found)
    modifies sink, disk
    ensures Serviced(disk, found)
    ensures Renamed(Before(disk), disk.files, root, payload, ok, !disk.faulted)
    ensures Sent(sink, reply) && Answers(reply, ok, 0)
  {
    hide Disciplined, Play, Tree, Confined, WithDirs, Makeable, Succeeds, Effect, Answers, Accepted, CurrentPath;
    hide SplitRename;
    hide Spot.Target, Spot.Parent;
    if !Renamable(root, payload) {
      reply := Reply(sink, false, 0, Ascii("invalid rename path"));
      return false, reply;
    }
    var pair := SplitRename(payload).value;
    var from, to := Current(pair.0), Current(pair.1);
    disk.Lock(found);
    ghost var fs := disk.files;
    TreeOf(disk);
    ok := EnsureDirExists(disk, to.Parent());
    if ok {
      MadeOnce(fs, to.Parent());
      ghost var made := disk.files;
      ok := SafeRename(disk, from.Target(), to.Target(), to.Parent());
      if !ok {
        MadeThenConfined(fs, made, disk.files, to.Parent());
      }
    }
    disk.Unlock();
    reply := Reply(sink, ok, 0, Ascii("rename failed"));
  }

  // ---- Offset queries ---------------------------------------------------------------------------------------------

  function OffsetHeader(offset: u64): Header { InitHeader(MSG_OFFSET_REPLY).(offset := offset) }

  /**
   * server_handle_query_offset: looks at the files without the mutex, as others have left them, and
   * changes nothing.
   */
  method HandleQueryOffset(sink: Sink, disk: Disk, root: text, rel: text, view: Files)
    returns (ok: bool, ghost offset: u64, ghost reply: text)
    requires disk.Valid() && !disk.locked && Tree(view)
    modifies sink, disk`acts
    ensures disk.Valid() && Sent(sink, reply)
    ensures ok <==> PathFits(root, rel) && HEADER_SIZE <= old(sink.room)
    ensures if PathFits(root, rel) then reply == EncodeHeader(OffsetHeader(offset)) else Answers(reply, false, 0)
    ensures !IsDir(view, Current(rel).Temp()) ==> offset == |Content(view, Current(rel).Temp())|
  {
    hide Disciplined, Play, EncodeHeader, Accepted, Spot.Temp;
    SizeFits(view, Current(rel).Temp());
    offset := |Content(view, Current(rel).Temp())|;
    if !PathFits(root, rel) {
      reply := Reply(sink, false, 0, Ascii("invalid query path"));
      return false, offset, reply;
    }
    var node := disk.Glance(Current(rel).Temp(), view);
    var size: u64 := 0;
    if node.Some? {
      if node.value.File? {
        size := |node.value.content|;
      } else {
        size := *;
      }
    }
    offset := size;
    reply := EncodeHeader(OffsetHeader(size));
    ok := SendHeader(sink, OffsetHeader(size));
  }

  // ---- The message loop -------------------------------------------------------------------------------------------

  /** The one mutating request a connection makes, with the bytes behind its header and path. */
  datatype Job =
    | Idle
    | Begin(header: Header, rel: text, input: text)
    | Blocks(header: Header, rel: text, input: text)
    | Delete(rel: text)
    | Move(payload: text)

  /** The job in the bytes `s` when `last` is the path of the latest offset query. */
  function NextJob(root: text, s: text, last: text): Job
    decreases |s|
  {
    match FrontHeader(s)
    case None => Idle
    case Some(h) =>
      var n := HEADER_SIZE + h.pathLen;
      if h.msgType == MSG_EXIT || |s| < n then Idle
      else
        var payload, input := s[HEADER_SIZE..n], s[n..];
        if h.msgType == MSG_HELLO then NextJob(root, input, last)
        else if h.msgType == MSG_QUERY_OFFSET then
          if PathFits(root, CString(payload)) then NextJob(root, input, CString(payload)) else Idle
        else JobOf(h, payload, input, last)
  }

  /** The job a message is that ends the loop. */
  function JobOf(h: Header, payload: text, input: text, last: text): Job {
    if h.msgType == MSG_FILE_BEGIN then Begin(h, CString(payload), input)
    else if h.msgType == MSG_FILE_BLOCK then if last == [] then Idle else Blocks(h, last, input)
    else if h.msgType == MSG_FILE_DELETE then Delete(CString(payload))
    else if h.msgType == MSG_FILE_RENAME then Move(payload)
    else Idle
  }

  /** What a job does to the files. */
  ghost predicate Handled(fs: Files, gs: Files, root: text, job: Job, stamp: text, ok: bool, clean: bool) {
    match job
    case Idle => gs == fs && !ok
    case Begin(h, rel, input) => Begun(fs, gs, root, h, rel, stamp, input, ok, clean)
    case Blocks(h, rel, input) => Resumed(fs, gs, root, h, rel, stamp, input, ok, clean)
    case Delete(rel) => Deleted(fs, gs, root, rel, stamp, ok, clean)
    case Move(payload) => Renamed(fs, gs, root, payload, ok, clean)
  }

  // ---- What goes back to the client -------------------------------------------------------------------------------

  /** A greeting or an acceptable offset query: the loop goes on after its reply. */
  predicate Greeting(root: text, h: Header, rel: text) {
    h.msgType == MSG_HELLO || (h.msgType == MSG_QUERY_OFFSET && PathFits(root, rel))
  }

  /** The reply: an acknowledgement, or the length of the staged file. */
  ghost predicate Greets(reply: text, fs: Files, h: Header, rel: text) {
    |reply| == HEADER_SIZE &&
    if h.msgType == MSG_HELLO then reply == EncodeHeader(AckHeader(0))
    else exists x: u64 ::
      reply == EncodeHeader(OffsetHeader(x)) &&
      (!IsDir(fs, Current(rel).Temp()) ==> x == |Content(fs, Current(rel).Temp())|)
  }

  /** How many greetings and offset queries in the bytes `s` come before the job. */
  function Greetings(root: text, s: text): nat
    decreases |s|
  {
    match FrontHeader(s)
    case None => 0
    case Some(h) =>
      var n := HEADER_SIZE + h.pathLen;
      if h.msgType == MSG_EXIT || |s| < n || !Greeting(root, h, CString(s[HEADER_SIZE..n])) then 0
      else 1 + Greetings(root, s[n..])
  }

  /** The files as each look without the mutex finds them, one after the other. */
  type Views = nat -> Files

  /** `replies` answers the greetings and offset queries in `s` one by one, the first of them being number `k`. */
  ghost predicate Greeted(root: text, views: Views, k: nat, s: text, replies: text)
    decreases |s|
  {
    match FrontHeader(s)
    case None => replies == []
    case Some(h) =>
      var n := HEADER_SIZE + h.pathLen;
      if h.msgType == MSG_EXIT || |s| < n || !Greeting(root, h, CString(s[HEADER_SIZE..n])) then replies == []
      else
        && |replies| >= HEADER_SIZE && Greets(replies[..HEADER_SIZE], views(k), h, CString(s[HEADER_SIZE..n]))
        && Greeted(root, views, k + 1, s[n..], replies[HEADER_SIZE..])
  }

  /** Having answered `k` of them with `replies`, what is left is to answer `rest`. */
  ghost predicate GreetedUpTo(root: text, views: Views, k: nat, s: text, replies: text, rest: text) {
    forall tail :: Greeted(root, views, k, rest, tail) ==> Greeted(root, views, 0, s, replies + tail)
  }

  lemma GreetedTurn(root: text, views: Views, k: nat, rest: text, h: Header, reply: text, tail: text)
    requires FrontHeader(rest) == Some(h) && h.msgType != MSG_EXIT && |rest| >= HEADER_SIZE + h.pathLen
    requires Greeting(root, h, CString(rest[HEADER_SIZE..HEADER_SIZE + h.pathLen]))
    requires Greets(reply, views(k), h, CString(rest[HEADER_SIZE..HEADER_SIZE + h.pathLen]))
    requires Greeted(root, views, k + 1, rest[HEADER_SIZE + h.pathLen..], tail)
    ensures Greeted(root, views, k, rest, reply + tail)
  {
    ReplySize(reply, views(k), h, CString(rest[HEADER_SIZE..HEADER_SIZE + h.pathLen]));
    hide EncodeHeader, FrontHeader, Greets, Greeting, CString;
    assert (reply + tail)[..HEADER_SIZE] == reply && (reply + tail)[HEADER_SIZE..] == tail;
  }

  lemma GreetedNext(root: text, views: Views, k: nat, s: text, replies: text, rest: text, h: Header, reply: text)
    requires GreetedUpTo(root, views, k, s, replies, rest)
    requires FrontHeader(rest) == Some(h) && h.msgType != MSG_EXIT && |rest| >= HEADER_SIZE + h.pathLen
    requires Greeting(root, h, CString(rest[HEADER_SIZE..HEADER_SIZE + h.pathLen]))
    requires Greets(reply, views(k), h, CString(rest[HEADER_SIZE..HEADER_SIZE + h.pathLen]))
    ensures GreetedUpTo(root, views, k + 1, s, replies + reply, rest[HEADER_SIZE + h.pathLen..])
  {
    hide FrontHeader, Greets, Greeting, CString, Greeted;
    forall tail | Greeted(root, views, k + 1, rest[HEADER_SIZE + h.pathLen..], tail)
      ensures Greeted(root, views, 0, s, replies + reply + tail)
    {
      GreetedTurn(root, views, k, rest, h, reply, tail);
      ConcatAssociative(replies, reply, tail);
    }
  }

  /** What an acknowledgement of the job carries. */
  function AckOffset(job: Job): u64 {
    match job
    case Begin(h, _, _) => if IsDirMode(h.mode) then 0 else h.fileSize
    case Blocks(h, _, _) => h.fileSize
    case _ => 0
  }

  /** Behind the greetings and queries in `s`, nothing acceptable follows or an EXIT: the server just closes. */
  ghost predicate Silent(root: text, s: text)
    decreases |s|
  {
    match FrontHeader(s)
    case None => true
    case Some(h) =>
      var n := HEADER_SIZE + h.pathLen;
      h.msgType == 99 || (|s| >= n && Greeting(root, h, CString(s[HEADER_SIZE..n])) && Silent(root, s[n..]))
  }

  /**
   * The last reply of a connection: an acknowledgement exactly if the job succeeded, otherwise an
   * error message, and none at all if the server just closes.
   */
  ghost predicate Concludes(reply: text, job: Job, ok: bool, silent: bool) {
    if silent then job.Idle? && !ok && reply == [] else Answers(reply, ok, AckOffset(job)) && (job.Idle? ==> !ok)
  }

  // ---- The loop ---------------------------------------------------------------------------------------------------

  /** The switch of server_handle_connection for all but greetings and offset queries. */
  method Dispatch(src: Source, sink: Sink, disk: Disk, header: Header, payload: text, root: text, last: text,
          stamp: text, found: Files)
    returns (ok: bool, ghost reply: text)
    requires src.Valid() && disk.Valid() && !disk.locked && Tree(found)
    modifies src, sink, disk
    ensures Serviced(disk, found)
    ensures Handled(Before(disk), disk.files, root, JobOf(header, payload, old(src.Rest()), last), stamp, ok,
      !disk.faulted)
    ensures Sent(sink, reply) && Concludes(reply, JobOf(header, payload, old(src.Rest()), last), ok, false)
  {
    hide Disciplined, Play, Tree, Begun, Resumed, Deleted, Renamed, Answers, CString, Sent;
    ok := false;
    if header.msgType == MSG_FILE_BEGIN {
      ok, reply := HandleFileBegin(src, sink, disk, header, root, CString(payload), stamp, found);
    } else if header.msgType == MSG_FILE_BLOCK {
      if last == [] {
        reply := Reply(sink, false, 0, Ascii("missing path before block"));
      } else {
        ok, reply := HandleLargeBlockStream(src, sink, disk, header, root, last, stamp, found);
      }
    } else if header.msgType == MSG_FILE_DELETE {
      ok, reply := HandleFileDelete(sink, disk, root, CString(payload), stamp, found);
    } else if header.msgType == MSG_FILE_RENAME {
      ok, reply := HandleFileRename(sink, disk, root, payload, found);
    } else {
      reply := Reply(sink, false, 0, Ascii("unknown message type"));
    }
  }

  /**
   * Everything a connection with room for `room` bytes is answered to the bytes `s`: if the replies
   * to all greetings and queries get through, the job is the one in the bytes, and the last reply is
   * an acknowledgement exactly if it succeeded; otherwise there is no job.
   */
  ghost predicate Conversation(root: text, views: Views, s: text, room: nat, job: Job, ok: bool, out: text) {
    var n := HEADER_SIZE * Greetings(root, s);
    if n <= room then
      && job == NextJob(root, s, [])
      && |out| >= n && Greeted(root, views, 0, s, out[..n]) && Concludes(out[n..], job, ok, Silent(root, s))
    else job == Idle && |out| > room
  }

  lemma LastReply(root: text, views: Views, s: text, room: nat, out: text, reply: text, job: Job, ok: bool)
    requires |out| == HEADER_SIZE * Greetings(root, s) <= room && Greeted(root, views, 0, s, out)
    requires job == NextJob(root, s, []) && Concludes(reply, job, ok, Silent(root, s))
    ensures Conversation(root, views, s, room, job, ok, out + reply)
  {
    hide Greeted, Concludes, NextJob, Greetings, Silent;
    Behind(out, reply);
  }

  lemma ConversationEnds(root: text, views: Views, k: nat, s: text, room: nat, out: text, rest: text, reply: text,
          job: Job, ok: bool)
    requires GreetedUpTo(root, views, k, s, out, rest) && Greetings(root, rest) == 0
    requires |out| == HEADER_SIZE * Greetings(root, s) <= room
    requires job == NextJob(root, s, []) && Concludes(reply, job, ok, Silent(root, s))
    ensures Conversation(root, views, s, room, job, ok, out + reply)
  {
    hide GreetedUpTo, Greeted, Concludes, NextJob, Greetings, Silent;
    GreetingsDone(root, views, k, s, out, rest);
    LastReply(root, views, s, room, out, reply, job, ok);
  }

  lemma ConversationIsCut(root: text, views: Views, s: text, room: nat, out: text, g: nat, reply: text)
    requires |out| == HEADER_SIZE * g && |reply| == HEADER_SIZE && room < |out| + HEADER_SIZE && g < Greetings(root, s)
    ensures Conversation(root, views, s, room, Idle, false, out + reply)
  {
    hide Greeted, Concludes, NextJob, Greetings, Silent;
  }

  /** The cases of a greeting and of an offset query. */
  method Greet(sink: Sink, disk: Disk, root: text, header: Header, rel: text, view: Files)
    returns (ok: bool, ghost reply: text)
    requires disk.Valid() && !disk.locked && Tree(view)
    requires (header.msgType == MSG_HELLO || header.msgType == MSG_QUERY_OFFSET)
    modifies sink, disk`acts
    ensures disk.Valid() && Sent(sink, reply)
    ensures ok ==> sink.sent == old(sink.sent) + reply && sink.room == old(sink.room) - HEADER_SIZE
    ensures ok <==> Greeting(root, header, rel) && HEADER_SIZE <= old(sink.room)
    ensures if Greeting(root, header, rel) then Greets(reply, view, header, rel) else Answers(reply, false, 0)
  {
    hide Disciplined, Play, Tree, EncodeHeader, PathFits, Answers, Clip, Spot.Temp;
    if header.msgType == MSG_HELLO {
      ok, reply := SendAck(sink, 0);
    } else {
      var sent, offset, r := HandleQueryOffset(sink, disk, root, rel, view);
      ok, reply := sent, r;
    }
    AllOfIt(reply, old(sink.room));
    if Greeting(root, header, rel) {
      ReplySize(reply, view, header, rel);
    }
  }

  /** A header with the path behind it; the end of the connection; or a header whose path is cut. */
  datatype Message = Message(header: Header, path: text) | Over | Short

  method ReceiveMessage(src: Source) returns (m: Message)
    requires src.Valid()
    modifies src
    ensures src.Valid()
    ensures var s := old(src.Rest());
      match m
      case Over => FrontHeader(s).None? || FrontHeader(s).value.msgType == MSG_EXIT
      case Short =>
        && FrontHeader(s).Some? && FrontHeader(s).value.msgType != MSG_EXIT
        && |s| < HEADER_SIZE + FrontHeader(s).value.pathLen
      case Message(h, path) =>
        && FrontHeader(s) == Some(h) && h.msgType != MSG_EXIT && |s| >= HEADER_SIZE + h.pathLen
        && path == s[HEADER_SIZE..HEADER_SIZE + h.pathLen] && src.Rest() == s[HEADER_SIZE + h.pathLen..]
  {
    hide FrontHeader;
    ghost var s := src.Rest();
    var received := RecvHeader(src);
    if received.None? || received.value.msgType == MSG_EXIT {
      return Over;
    }
    var path := src.ReadFull(received.value.pathLen);
    if path.None? {
      return Short;
    }
    SliceOfTail(s, HEADER_SIZE, received.value.pathLen);
    m := Message(received.value, path.value);
  }

  /** One message in front of the bytes `s`. */
  lemma Turn(root: text, s: text, last: text, h: Header)
    requires FrontHeader(s) == Some(h) && |s| >= HEADER_SIZE + h.pathLen && h.msgType != MSG_EXIT
    ensures var n := HEADER_SIZE + h.pathLen; var rel := CString(s[HEADER_SIZE..n]);
      && (h.msgType == MSG_HELLO ==> Greeting(root, h, rel))
      && (Greeting(root, h, rel) ==>
        && Greetings(root, s) == 1 + Greetings(root, s[n..]) && (Silent(root, s) <==> Silent(root, s[n..]))
        && NextJob(root, s, last) == NextJob(root, s[n..], if h.msgType == MSG_QUERY_OFFSET then rel else last))
      && (!Greeting(root, h, rel) ==>
        && Greetings(root, s) == 0 && !Silent(root, s)
        && NextJob(root, s, last) == if h.msgType == MSG_QUERY_OFFSET then Idle
          else JobOf(h, s[HEADER_SIZE..n], s[n..], last))
  {
    hide FrontHeader, CString, PathFits, JobOf;
  }

  lemma NoTurn(root: text, s: text, last: text)
    requires FrontHeader(s).None? || FrontHeader(s).value.msgType == MSG_EXIT ||
      |s| < HEADER_SIZE + FrontHeader(s).value.pathLen
    ensures Greetings(root, s) == 0 && NextJob(root, s, last) == Idle
    ensures Silent(root, s) <==> FrontHeader(s).None? || FrontHeader(s).value.msgType == MSG_EXIT
  {
    hide FrontHeader, CString, PathFits, JobOf;
  }

  // ---- Where the loop is -----------------------------------------------------------------------------------------

  /** Of the bytes `s0`, `k` greetings and queries have been answered by `out`, and `s` is left. */
  ghost predicate Answering(root: text, views: Views, k: nat, s0: text, out: text, s: text, last: text) {
    && GreetedUpTo(root, views, k, s0, out, s) && NextJob(root, s, last) == NextJob(root, s0, [])
    && k + Greetings(root, s) == Greetings(root, s0) && |out| == HEADER_SIZE * k
    && (Silent(root, s) <==> Silent(root, s0))
  }

  lemma NothingAnswered(root: text, views: Views, s: text)
    ensures Answering(root, views, 0, s, [], s, [])
  {
    hide GreetedUpTo, NextJob, Greetings, Silent;
    NothingToGreet(root, views, s);
  }

  /** Nothing acceptable follows, or an EXIT, or a header whose path is cut. */
  lemma NoMoreMessages(root: text, views: Views, k: nat, s0: text, room: nat, out: text, s: text, last: text,
          reply: text)
    requires FrontHeader(s).None? || FrontHeader(s).value.msgType == MSG_EXIT ||
      |s| < HEADER_SIZE + FrontHeader(s).value.pathLen
    requires if FrontHeader(s).None? || FrontHeader(s).value.msgType == MSG_EXIT then reply == []
      else Answers(reply, false, 0)
    requires Answering(root, views, k, s0, out, s, last) && |out| <= room
    ensures Conversation(root, views, s0, room, Idle, false, out + reply)
  {
    hide FrontHeader, Answers, NextJob, Greetings, Concludes, GreetedUpTo, Conversation, Silent;
    NoTurn(root, s, last);
    ErrorConcludes(reply);
    ConversationEnds(root, views, k, s0, room, out, s, reply, Idle, false);
  }

  /** A message follows that is neither a greeting nor a query. */
  lemma AllAnswered(root: text, views: Views, k: nat, s0: text, out: text, s: text, h: Header, last: text)
    requires FrontHeader(s) == Some(h) && |s| >= HEADER_SIZE + h.pathLen && h.msgType != MSG_EXIT
    requires h.msgType != MSG_HELLO && h.msgType != MSG_QUERY_OFFSET
    requires Answering(root, views, k, s0, out, s, last)
    ensures var n := HEADER_SIZE + h.pathLen; NextJob(root, s0, []) == JobOf(h, s[HEADER_SIZE..n], s[n..], last)
    ensures |out| == HEADER_SIZE * Greetings(root, s0) && Greeted(root, views, 0, s0, out) && !Silent(root, s0)
  {
    hide FrontHeader, CString, Greeting, JobOf, NextJob, Greetings, Greeted, GreetedUpTo, Silent;
    JobIsNoGreeting(root, h, CString(s[HEADER_SIZE..HEADER_SIZE + h.pathLen]));
    Turn(root, s, last, h);
    GreetingsDone(root, views, k, s0, out, s);
  }

  /** A greeting or query follows whose reply does not get through, or which is refused. */
  lemma AnswerFails(root: text, views: Views, k: nat, s0: text, room: nat, out: text, s: text, h: Header, last: text,
          reply: text)
    requires FrontHeader(s) == Some(h) && |s| >= HEADER_SIZE + h.pathLen && h.msgType != MSG_EXIT
    requires h.msgType == MSG_HELLO || h.msgType == MSG_QUERY_OFFSET
    requires var rel := CString(s[HEADER_SIZE..HEADER_SIZE + h.pathLen]);
      if Greeting(root, h, rel) then |reply| == HEADER_SIZE && room < |out| + HEADER_SIZE else Answers(reply, false, 0)
    requires Answering(root, views, k, s0, out, s, last) && |out| <= room
    ensures Conversation(root, views, s0, room, Idle, false, out + reply)
  {
    hide FrontHeader, CString, Greeting, JobOf, NextJob, Greetings, Greeted, GreetedUpTo, Silent, Answers, Conversation;
    hide Concludes;
    Turn(root, s, last, h);
    if Greeting(root, h, CString(s[HEADER_SIZE..HEADER_SIZE + h.pathLen])) {
      ConversationIsCut(root, views, s0, room, out, k, reply);
    } else {
      ErrorConcludes(reply);
      ConversationEnds(root, views, k, s0, room, out, s, reply, Idle, false);
    }
  }

  /** A greeting or query follows and is answered. */
  lemma OneMoreAnswered(root: text, views: Views, k: nat, s0: text, out: text, s: text, h: Header, last: text,
          reply: text)
    requires FrontHeader(s) == Some(h) && |s| >= HEADER_SIZE + h.pathLen && h.msgType != MSG_EXIT
    requires var rel := CString(s[HEADER_SIZE..HEADER_SIZE + h.pathLen]);
      Greeting(root, h, rel) && Greets(reply, views(k), h, rel)
    requires Answering(root, views, k, s0, out, s, last)
    ensures var n := HEADER_SIZE + h.pathLen; var rel := CString(s[HEADER_SIZE..n]);
      Answering(root, views, k + 1, s0, out + reply, s[n..], if h.msgType == MSG_QUERY_OFFSET then rel else last)
  {
    hide FrontHeader, CString, Greeting, Greets, JobOf, NextJob, Greetings, Greeted, GreetedUpTo, Silent;
    Turn(root, s, last, h);
    ReplySize(reply, views(k), h, CString(s[HEADER_SIZE..HEADER_SIZE + h.pathLen]));
    GreetedNext(root, views, k, s0, out, s, h, reply);
  }

  /**
   * The loop of server_handle_connection as long as it goes on: it returns the message that is not a
   * greeting or query, or none if the connection is over. `last` is the path of the latest query.
   */
  method AnswerGreetings(src: Source, sink: Sink, disk: Disk, root: text, views: Views)
    returns (m: Message, last: text, ghost out: text)
    requires src.Valid() && disk.Valid() && !disk.locked && forall k :: Tree(views(k))
    modifies src, sink, disk`acts
    ensures src.Valid() && disk.Valid() && Sent(sink, out)
    ensures var s := old(src.Rest());
      if m.Message? then
        && NextJob(root, s, []) == JobOf(m.header, m.path, src.Rest(), last) && !Silent(root, s)
        && |out| == HEADER_SIZE * Greetings(root, s) <= old(sink.room) && Greeted(root, views, 0, s, out)
      else Conversation(root, views, s, old(sink.room), Idle, false, out)
  {
    hide Disciplined, Play, Tree, EncodeHeader, FrontHeader, Answers, CString, Greeting, JobOf, NextJob, Greetings;
    hide Greeted, Greets, Answering, Conversation, Clip, Disk.Valid, Silent;
    last, out := [], [];
    ghost var s0, room, reply := src.Rest(), sink.room, [];
    var g := 0;
    NothingAnswered(root, views, s0);
    while true
      invariant src.Valid() && disk.Valid() && |out| <= room
      invariant Answering(root, views, g, s0, out, src.Rest(), last)
      invariant sink.sent == old(sink.sent) + out && sink.room == room - |out|
      decreases |src.data| - src.pos
    {
      ghost var s := src.Rest();
      m := ReceiveMessage(src);
      if !m.Message? {
        reply := [];
        NothingMore(sink.sent, room - |out|);
        if m.Short? {
          reply := Reply(sink, false, 0, Ascii("read path failed"));
        }
        NoMoreMessages(root, views, g, s0, room, out, s, last, reply);
        break;
      }
      var header, rel := m.header, CString(m.path);
      if header.msgType != MSG_HELLO && header.msgType != MSG_QUERY_OFFSET {
        AllAnswered(root, views, g, s0, out, s, header, last);
        AllOfIt(out, room);
        return;
      }
      var answered: bool;
      answered, reply := Greet(sink, disk, root, header, rel, views(g));
      if Greeting(root, header, rel) {
        ReplySize(reply, views(g), header, rel);
      }
      if !answered {
        AnswerFails(root, views, g, s0, room, out, s, header, last, reply);
        m := Over;
        break;
      }
      OneMoreAnswered(root, views, g, s0, out, s, header, last, reply);
      if header.msgType == MSG_QUERY_OFFSET {
        last := rel;
      }
      ConcatAssociative(old(sink.sent), out, reply);
      out, g := out + reply, g + 1;
    }
    ClipBehind(out, reply, room);
    ConcatAssociative(old(sink.sent), out, Clip(reply, room - |out|));
    out := out + reply;
  }

  /**
   * server_handle_connection on arbitrary bytes; other threads have made `views` of the files when
   * it looks without the mutex, and `found` when it gets it. `out` is everything it writes, as
   * far as the connection takes it.
   */
  method HandleConnection(src: Source, sink: Sink, disk: Disk, root: text, stamp: text, views: Views, found: Files)
    returns (ok: bool, ghost job: Job, ghost out: text)
    requires src.Valid() && disk.Valid() && !disk.locked && Tree(found) && forall k :: Tree(views(k))
    modifies src, sink, disk
    ensures Serviced(disk, found)
    ensures Handled(Before(disk), disk.files, root, job, stamp, ok, !disk.faulted)
    ensures sink.sent == old(sink.sent) + Clip(out, old(sink.room))
    ensures Conversation(root, views, old(src.Rest()), old(sink.room), job, ok, out)
  {
    hide Disciplined, Play, Tree, EncodeHeader, FrontHeader, Answers, JobOf, NextJob, Greetings, Greeted, Handled;
    hide Concludes, Conversation, Silent;
    ghost var s, room := src.Rest(), sink.room;
    IdleIsQuiet(disk.files, root, stamp, !disk.faulted);
    var m, last, replies := AnswerGreetings(src, sink, disk, root, views);
    ok, job, out := false, Idle, replies;
    if m.Message? {
      job := JobOf(m.header, m.path, src.Rest(), last);
      ghost var reply: text;
      ok, reply := Dispatch(src, sink, disk, m.header, m.path, root, last, stamp, found);
      LastReply(root, views, s, room, replies, reply, job, ok);
      ClipBehind(replies, reply, room);
      AllOfIt(replies, room);
      out := replies + reply;
    }
  }

  lemma AllOfIt(bytes: text, room: nat)
    ensures |bytes| <= room ==> Clip(bytes, room) == bytes
  {
  }

  lemma NothingMore(out: text, room: nat)
    ensures Clip([], room) == [] && out + [] == out
  {
  }

  lemma Behind(before: text, reply: text)
    ensures (before + reply)[..|before|] == before && (before + reply)[|before|..] == reply
  {
  }

  lemma ReplySize(reply: text, fs: Files, h: Header, rel: text)
    requires Greets(reply, fs, h, rel)
    ensures |reply| == HEADER_SIZE
  {
  }

  lemma JobIsNoGreeting(root: text, h: Header, rel: text)
    requires h.msgType != MSG_HELLO && h.msgType != MSG_QUERY_OFFSET
    ensures !Greeting(root, h, rel)
  {
  }

  lemma NothingToGreet(root: text, views: Views, s: text)
    ensures GreetedUpTo(root, views, 0, s, [], s)
  {
    forall tail: text
      ensures [] + tail == tail
    {
    }
  }

  /** Where no greeting or query is left, the replies so far are all. */
  lemma GreetingsDone(root: text, views: Views, k: nat, s: text, replies: text, rest: text)
    requires GreetedUpTo(root, views, k, s, replies, rest) && Greetings(root, rest) == 0
    ensures Greeted(root, views, 0, s, replies) && Clip(replies, |replies|) == replies
    ensures replies[..|replies|] == replies && replies[|replies|..] == []
  {
    hide EncodeHeader, FrontHeader, Greets, Greeting, CString;
    assert Greeted(root, views, k, rest, []);
    assert replies + [] == replies;
  }

  lemma ErrorConcludes(reply: text)
    ensures Concludes([], Idle, false, true) && (Answers(reply, false, 0) ==> Concludes(reply, Idle, false, false))
  {
  }

  lemma IdleIsQuiet(fs: Files, root: text, stamp: text, clean: bool)
    ensures Handled(fs, fs, root, Idle, stamp, false, clean)
  {
  }
}
