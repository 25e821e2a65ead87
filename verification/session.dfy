/** Client and server code run against each other. */
module EndToEnd {
  import opened Bytes
  import opened Io
  import opened Wire
  import opened Paths
  import opened FileTree
  import opened Serial
  import opened Store
  import opened Server
  import opened Connection
  import opened Resume
  import opened Client
  import Fnv

  // ---- What the client hears ---------------------------------------------------------------------------------

  /** As far as the connection lets a last reply through, it reads as a success exactly if there was one. */
  lemma ConclusionHeard(reply: text, job: Job, ok: bool, silent: bool, room: nat)
    requires Concludes(reply, job, ok, silent)
    ensures Acknowledges(Clip(reply, room)) <==> ok && room >= HEADER_SIZE
  {
    hide EncodeHeader, FrontHeader;
    if reply == [] || room < HEADER_SIZE {
      ShortFront(Clip(reply, room));
    } else if ok {
      assert Answers(reply, ok, AckOffset(job));
      FrontOfEncoded(AckHeader(AckOffset(job)), []);
      assert Clip(reply, room) == reply == EncodeHeader(AckHeader(AckOffset(job))) + [];
    } else {
      var m: text :| |m| <= MAX_NET_PATH && reply == EncodeHeader(ErrorHeader(m)) + m;
      var rest := m[..Min(|reply|, room) - HEADER_SIZE];
      assert Clip(reply, room) == EncodeHeader(ErrorHeader(m)) + rest;
      FrontOfEncoded(ErrorHeader(m), rest);
    }
  }

  /** An offset reply that gets through offers the offset; a part of it does not. */
  lemma OfferHeard(offset: u64, room: nat)
    ensures var reply := Clip(EncodeHeader(OffsetHeader(offset)), room);
      FrontHeader(reply) == if room >= HEADER_SIZE then Some(OffsetHeader(offset)) else None
  {
    hide EncodeHeader, FrontHeader;
    var whole := EncodeHeader(OffsetHeader(offset));
    if room >= HEADER_SIZE {
      FrontOfEncoded(OffsetHeader(offset), []);
      assert Clip(whole, room) == whole + [];
    } else {
      ShortFront(Clip(whole, room));
    }
  }

  /** A whole session has one query and then a block or the end. */
  lemma OneGreeting(root: text, rel: text, s: text, pos: nat, ns: seq<nat>, total: u64, meta: Meta)
    requires Sendable(root, rel, s) && Chunked(s, pos, ns)
    ensures var all := SessionBytes(rel, s, pos, ns, total, meta); var q := QueryFrame(rel);
      && FrontHeader(all) == Some(q.header) && CString(q.payload) == rel && |all| >= HEADER_SIZE + |rel|
      && all[HEADER_SIZE..HEADER_SIZE + |rel|] == q.payload && Greetings(root, all[HEADER_SIZE + |rel|..]) == 0
  {
    hide EncodeHeader, FrontHeader, PathFits, CString, Fnv.Hash, InitHeader;
    var q, frames := QueryFrame(rel), DataFrames(s, pos, ns, total, meta);
    QueryFits(root, rel);
    var all := SessionBytes(rel, s, pos, ns, total, meta);
    assert all == EncodeHeader(q.header) + (q.payload + EncodeFrames(frames));
    FrontOfEncoded(q.header, q.payload + EncodeFrames(frames));
    assert all[HEADER_SIZE + |rel|..] == EncodeFrames(frames);
    if ns == [] {
      EndFits(total, meta);
    } else {
      ChunkedNext(s, pos, ns);
      BlockFrameFits(s, pos, ns[0], total, meta);
    }
    var f, later := frames[0], EncodeFrames(frames[1..]);
    assert EncodeFrames(frames) == EncodeHeader(f.header) + (f.payload + later);
    FrontOfEncoded(f.header, f.payload + later);
  }

  /** The replies to a whole session: the length of what is staged, then the outcome. */
  lemma SessionHeard(root: text, views: Views, rel: text, s: text, pos: nat, ns: seq<nat>, total: u64, meta: Meta,
      back: nat, job: Job, ok: bool, out: text)
    requires Sendable(root, rel, s) && Chunked(s, pos, ns) && !IsDir(views(0), Current(rel).Temp())
    requires back >= HEADER_SIZE
    requires Conversation(root, views, SessionBytes(rel, s, pos, ns, total, meta), back, job, ok, out)
    ensures job == NextJob(root, SessionBytes(rel, s, pos, ns, total, meta), [])
    ensures |Clip(out, back)| >= HEADER_SIZE
    ensures exists x: u64 ::
      x == |Content(views(0), Current(rel).Temp())| && Clip(out, back)[..HEADER_SIZE] == EncodeHeader(OffsetHeader(x))
    ensures Acknowledges(Clip(out, back)[HEADER_SIZE..]) <==> ok && back >= 2 * HEADER_SIZE
  {
    hide EncodeHeader, FrontHeader, NextJob, SessionBytes, Concludes, PathFits, CString, Spot.Temp, Silent;
    OneGreeting(root, rel, s, pos, ns, total, meta);
    var all, q := SessionBytes(rel, s, pos, ns, total, meta), QueryFrame(rel);
    GreetedOnce(root, views, all, q.header, out[..HEADER_SIZE]);
    ConclusionHeard(out[HEADER_SIZE..], job, ok, Silent(root, all), back - HEADER_SIZE);
    assert Clip(out, back)[HEADER_SIZE..] == Clip(out[HEADER_SIZE..], back - HEADER_SIZE);
    assert Clip(out, back)[..HEADER_SIZE] == out[..HEADER_SIZE];
  }

  lemma GreetedOnce(root: text, views: Views, s: text, h: Header, replies: text)
    requires FrontHeader(s) == Some(h) && h.msgType == MSG_QUERY_OFFSET && |s| >= HEADER_SIZE + h.pathLen
    requires var rel := CString(s[HEADER_SIZE..HEADER_SIZE + h.pathLen]);
      PathFits(root, rel) && !IsDir(views(0), Current(rel).Temp())
    requires Greetings(root, s[HEADER_SIZE + h.pathLen..]) == 0
    ensures Greetings(root, s) == 1
    ensures |replies| == HEADER_SIZE && Greeted(root, views, 0, s, replies) ==>
      exists x: u64 ::
        x == |Content(views(0), Current(CString(s[HEADER_SIZE..HEADER_SIZE + h.pathLen])).Temp())| &&
        replies == EncodeHeader(OffsetHeader(x))
  {
    hide EncodeHeader, FrontHeader, PathFits, CString, Spot.Temp;
    assert |replies| == HEADER_SIZE ==> replies[..HEADER_SIZE] == replies;
  }

  // ---- One large file ------------------------------------------------------------------------------------------

  lemma FrontIsCut(sent: text, rel: text, s: text, pos: nat, ns: seq<nat>, total: u64, meta: Meta)
    requires Front(sent, rel, s, pos, ns, total, meta)
    ensures |rel| <= MAX_NET_PATH && Chunked(s, pos, ns) && |sent| <= |SessionBytes(rel, s, pos, ns, total, meta)|
    ensures |SessionBytes(rel, s, pos, ns, total, meta)| < RoomFor(rel, s)
    ensures SessionBytes(rel, s, pos, ns, total, meta)[..|sent|] == sent
  {
    SessionSize(rel, s, pos, ns, total, meta);
    hide SessionBytes, Chunked, RoomFor;
  }

  /** More than any session for the source can take. */
  function RoomFor(rel: text, s: text): nat { 2 * HEADER_SIZE + |rel| + (HEADER_SIZE + 1) * |s| + 1 }

  lemma {:induction false} FramesSize(s: text, pos: nat, ns: seq<nat>, total: u64, meta: Meta)
    requires Chunked(s, pos, ns)
    ensures |EncodeFrames(DataFrames(s, pos, ns, total, meta))| <= HEADER_SIZE + (HEADER_SIZE + 1) * Sum(ns)
    decreases ns
  {
    hide EncodeHeader, Fnv.Hash, InitHeader;
    var frames := DataFrames(s, pos, ns, total, meta);
    if ns == [] {
      assert frames[1..] == [];
    } else {
      ChunkedNext(s, pos, ns);
      FramesSize(s, pos + ns[0], ns[1..], total, meta);
      assert frames[1..] == DataFrames(s, pos + ns[0], ns[1..], total, meta);
    }
  }

  lemma SessionSize(rel: text, s: text, pos: nat, ns: seq<nat>, total: u64, meta: Meta)
    requires |rel| <= MAX_NET_PATH && Chunked(s, pos, ns)
    ensures |SessionBytes(rel, s, pos, ns, total, meta)| < RoomFor(rel, s)
  {
    FramesSize(s, pos, ns, total, meta);
    hide EncodeHeader, EncodeFrames, DataFrames, InitHeader;
    assert Sum(ns) <= |s| by { assert ns == [] ==> Sum(ns) == 0; }
  }

  /** After how many bytes each direction of a connection dies, the client's luck, and the server's time stamp. */
  datatype Fortune = Fortune(room: nat, back: nat, luck: Luck, stamp: text)

  /** A fortune with which nothing is cut and nothing fails on the client's side. */
  predicate Smooth(rel: text, s: text, f: Fortune) {
    f.luck.Good() && f.room >= RoomFor(rel, s) && f.back >= 2 * HEADER_SIZE
  }

  /** Nothing fails on either side, both directions let everything through, and nothing is in the way. */
  ghost predicate Undisturbed(mayFail: bool, fs: Files, rel: text, s: text, blockSize: nat, f: Fortune) {
    !mayFail && blockSize <= MAX_BLOCK && Smooth(rel, s, f) && WayClear(fs, rel)
  }

  /** What a session leaves behind, and what the client makes of it. */
  ghost predicate SessionDone(mayFail: bool, fs: Files, gs: Files, root: text, rel: text, s: text, blockSize: nat,
          f: Fortune, sent: bool, a: Attempt)
  {
    && Session(fs, gs, root, rel, s, a) && a.stamp == f.stamp
    && (a.total == Fnv.Hash(s) || a.total == 0)
    && (sent ==> a.heard && a.ok && Whole(fs, rel, s, a))
    && (Undisturbed(mayFail, fs, rel, s, blockSize, f) ==>
      a.heard && a.clean && Acceptable(Later(a.ns)) && (sent <==> a.ok) && Whole(fs, rel, s, a))
  }

  /** Nothing of the session is missing. */
  ghost predicate Whole(fs: Files, rel: text, s: text, a: Attempt) {
    var pos := |Content(fs, Current(rel).Temp())|;
    |rel| <= MAX_NET_PATH && Chunked(s, pos, a.ns) && a.cut == |SessionBytes(rel, s, pos, a.ns, a.total, a.meta)|
  }

  /** If the client takes the session for done, the server has committed exactly the source. */
  lemma SentIsCommitted(mayFail: bool, fs: Files, gs: Files, root: text, rel: text, s: text, blockSize: nat,
          f: Fortune, sent: bool, a: Attempt)
    requires SessionDone(mayFail, fs, gs, root, rel, s, blockSize, f, sent, a)
    requires Sendable(root, rel, s) && StagedPrefix(fs, rel, s) && Tree(fs)
    ensures sent ==> Committed(fs, gs, Current(rel), Version(f.stamp, rel), s)
    ensures sent ==> Get(gs, Current(rel).Target()) == Some(File(s)) && Current(rel).Temp() !in gs
    ensures Undisturbed(mayFail, fs, rel, s, blockSize, f) ==> (sent <==> |Content(fs, Current(rel).Temp())| < |s|)
  {
    hide Session, Sendable, StagedPrefix, Tree, Fnv.Hash, SessionBytes, Chunked, WayClear, Acceptable, Spot.Temp;
    hide Spot.Target, Committed;
    SessionKeepsPrefix(fs, gs, root, rel, s, a);
    if Undisturbed(mayFail, fs, rel, s, blockSize, f) {
      FullSession(fs, gs, root, rel, s, a);
    }
  }

  /** The bytes on the wire and what the server made of them are one session. */
  lemma WireIsSession(views: Views, fs: Files, gs: Files, root: text, rel: text, s: text, wire: text, back: nat,
          job: Job, replies: text, a: Attempt)
    requires Front(wire, rel, s, |Content(fs, Current(rel).Temp())|, a.ns, a.total, a.meta) && a.cut == |wire|
    requires Handled(fs, gs, root, job, a.stamp, a.ok, a.clean)
    requires Conversation(root, views, wire, back, job, a.ok, replies)
    requires a.heard <==> job == NextJob(root, wire, [])
    ensures Session(fs, gs, root, rel, s, a)
    ensures SessionBytes(rel, s, |Content(fs, Current(rel).Temp())|, a.ns, a.total, a.meta)[..a.cut] == wire
  {
    hide SessionBytes, NextJob, Chunked, Greeted, Greetings, Concludes, Spot.Temp, Silent;
    FrontIsCut(wire, rel, s, |Content(fs, Current(rel).Temp())|, a.ns, a.total, a.meta);
    if a.heard {
      hide Handled;
    }
  }

  /** The client has sent everything and waits for the outcome. */
  lemma Concluded(views: Views, root: text, rel: text, s: text, back: nat, job: Job, replies: text, a: Attempt)
    requires Sendable(root, rel, s) && Whole(views(0), rel, s, a) && !IsDir(views(0), Current(rel).Temp())
    requires back >= HEADER_SIZE
    requires Conversation(root, views,
      SessionBytes(rel, s, |Content(views(0), Current(rel).Temp())|, a.ns, a.total, a.meta), back, job, a.ok, replies)
    requires var all := SessionBytes(rel, s, |Content(views(0), Current(rel).Temp())|, a.ns, a.total, a.meta);
      a.heard <==> job == NextJob(root, all, [])
    ensures a.heard && |Clip(replies, back)| >= HEADER_SIZE
    ensures Acknowledges(Clip(replies, back)[HEADER_SIZE..]) <==> a.ok && back >= 2 * HEADER_SIZE
  {
    hide Sendable, SessionBytes, Conversation, NextJob, Spot.Temp, Acknowledges, Clip, Chunked;
    SessionHeard(root, views, rel, s, |Content(views(0), Current(rel).Temp())|, a.ns, a.total, a.meta, back, job, a.ok,
      replies);
  }

  lemma SmallBlocks(ns: seq<nat>, blockSize: nat)
    requires blockSize <= MAX_BLOCK && forall n :: n in ns ==> n <= blockSize
    ensures Acceptable(Later(ns))
  {
    assert forall n :: n in Later(ns) ==> n in ns;
  }

  /** What client, wire and server did, put together. */
  lemma SessionOutcome(mayFail: bool, views: Views, fs: Files, gs: Files, root: text, rel: text, s: text,
          blockSize: nat, f: Fortune,
      wire: text, done: bool, job: Job, replies: text, sent: bool, a: Attempt)
    requires Sendable(root, rel, s) && !IsDir(views(0), Current(rel).Temp()) && (a.total == Fnv.Hash(s) || a.total == 0)
    requires Content(fs, Current(rel).Temp()) == Content(views(0), Current(rel).Temp())
    requires Front(wire, rel, s, |Content(fs, Current(rel).Temp())|, a.ns, a.total, a.meta) && a.cut == |wire|
    requires Handled(fs, gs, root, job, a.stamp, a.ok, a.clean)
    requires Conversation(root, views, wire, f.back, job, a.ok, replies)
    requires (a.heard <==> job == NextJob(root, wire, [])) && a.stamp == f.stamp
    requires done ==>
      && f.back >= HEADER_SIZE && (forall n :: n in a.ns ==> n <= blockSize)
      && |rel| <= MAX_NET_PATH && Chunked(s, |Content(fs, Current(rel).Temp())|, a.ns)
      && wire == SessionBytes(rel, s, |Content(fs, Current(rel).Temp())|, a.ns, a.total, a.meta)
    requires !mayFail ==> a.clean && (Smooth(rel, s, f) ==> done)
    requires sent <==>
      done && |Clip(replies, f.back)| >= HEADER_SIZE && Acknowledges(Clip(replies, f.back)[HEADER_SIZE..])
    ensures SessionDone(mayFail, fs, gs, root, rel, s, blockSize, f, sent, a)
  {
    hide SessionBytes, NextJob, Handled, Fnv.Hash, Spot.Temp, Conversation, Front, Session, Clip, Acknowledges;
    hide WayClear, RoomFor, Acceptable, Chunked, Sendable;
    WireIsSession(views, fs, gs, root, rel, s, wire, f.back, job, replies, a);
    if done {
      Concluded(views, root, rel, s, f.back, job, replies, a);
      if blockSize <= MAX_BLOCK {
        SmallBlocks(a.ns, blockSize);
      }
    }
  }

  /** The server's part: it reads everything on the wire, and `heard` is what gets back to the client. */
  method ServerTurn(disk: Disk, root: text, wire: text, f: Fortune, views: Views, found: Files)
    returns (heard: text, ghost ok: bool, ghost job: Job, ghost replies: text)
    requires disk.Valid() && !disk.locked && Tree(found) && forall k :: Tree(views(k))
    modifies disk
    ensures Serviced(disk, found) && heard == Clip(replies, f.back)
    ensures Handled(Before(disk), disk.files, root, job, f.stamp, ok, !disk.faulted)
    ensures Conversation(root, views, wire, f.back, job, ok, replies)
  {
    hide Handled, Conversation, Clip, Disciplined, Play, Tree;
    var src := new Source(wire, true, 0);
    var out := new Sink(f.back, 0);
    var done;
    done, job, replies := HandleConnection(src, out, disk, root, f.stamp, views, found);
    heard, ok := out.sent, done;
    assert heard == Clip(replies, f.back);
  }

  /** The client's part up to its wait for the outcome; `wire` is what it sent. */
  method SendToServer(disk: Disk, root: text, rel: text, s: text, meta: Meta, blockSize: nat, f: Fortune, view: Files)
    returns (done: bool, wire: text, ghost ns: seq<nat>, ghost total: u64)
    requires disk.Valid() && !disk.locked && Sendable(root, rel, s) && 0 < blockSize < U32
    requires Tree(view) && !IsDir(view, Current(rel).Temp())
    modifies disk`acts
    ensures disk.Valid() && (total == Fnv.Hash(s) || total == 0)
    ensures Front(wire, rel, s, |Content(view, Current(rel).Temp())|, ns, total, meta)
    ensures done ==> wire == SessionBytes(rel, s, |Content(view, Current(rel).Temp())|, ns, total, meta)
    ensures done ==> f.back >= HEADER_SIZE && forall n :: n in ns ==> n <= blockSize
    ensures !disk.mayFail && Smooth(rel, s, f) ==> done
  {
    hide Disk.Valid, EncodeFrame, FrontHeader, Chunked, SessionBytes, PathFits, Fnv.Hash, EncodeHeader, Spot.Temp;
    hide Front, WayClear, RoomFor;
    ghost var staged := |Content(view, Current(rel).Temp())|;
    SizeFits(view, Current(rel).Temp());
    var first := new Sink(f.back, 0);
    var answered, offset, _ := HandleQueryOffset(first, disk, root, rel, view);
    OfferHeard(offset, f.back);
    var sink := new Sink(f.room, 0);
    var offer := new Source(first.sent, true, 0);
    ghost var pos;
    done, pos, ns, total := SendLargeFile(s, sink, offer, rel, meta, blockSize, f.luck);
    wire := sink.sent;
    if !answered {
      ns := QueryIsFront(wire, rel, s, staged, total, meta);
    }
    FrontIsCut(wire, rel, s, staged, ns, total, meta);
  }

  /**
   * One session of send_remote_large_file against server_handle_connection, over a connection that
   * may die after any number of bytes in each direction. The two take turns: the reply to the query
   * is what HandleQueryOffset sends, the server then reads all that the client sent, and the client
   * waits for what comes back behind the reply it has read already; the server looks at the staged
   * file once for each of the first two. Other threads have made `views` of the files when the
   * server looks and `found` when it has the mutex, but left the staged file alone.
   */
  method RunSession(disk: Disk, root: text, rel: text, s: text, meta: Meta, blockSize: nat, f: Fortune, views: Views,
          found: Files)
    returns (sent: bool, ghost a: Attempt)
    requires disk.Valid() && !disk.locked && Sendable(root, rel, s) && 0 < blockSize < U32
    requires Tree(found) && forall k :: Tree(views(k))
    requires var temp := Current(rel).Temp();
      Get(found, temp) == Get(views(0), temp) == Get(disk.files, temp) && !IsDir(found, temp)
    modifies disk
    ensures Serviced(disk, found) && (a.clean <==> !disk.faulted)
    ensures SessionDone(disk.mayFail, Before(disk), disk.files, root, rel, s, blockSize, f, sent, a)
    ensures StagedPrefix(found, rel, s) && sent ==>
      && Get(disk.files, Current(rel).Target()) == Some(File(s)) && Current(rel).Temp() !in disk.files
      && Committed(Before(disk), disk.files, Current(rel), Version(f.stamp, rel), s)
    ensures StagedPrefix(found, rel, s) && Undisturbed(disk.mayFail, Before(disk), rel, s, blockSize, f) ==>
      (sent <==> |Content(found, Current(rel).Temp())| < |s|)
  {
    hide Disciplined, Play, Tree, EncodeFrame, FrontHeader, Chunked, SessionBytes, NextJob, Handled, PathFits, Fnv.Hash;
    hide EncodeHeader, Spot.Temp, Spot.Target, Conversation, StagedPrefix, Front, Session, Clip, Acknowledges;
    hide SessionDone, Smooth, Committed;
    SameStaged(disk.files, found, rel, s);
    SameStaged(views(0), found, rel, s);
    TreeOf(disk);
    var wire: text;
    ghost var ns, total;
    sent, wire, ns, total := SendToServer(disk, root, rel, s, meta, blockSize, f, views(0));
    FrontIsCut(wire, rel, s, |Content(found, Current(rel).Temp())|, ns, total, meta);
    var heard: text;
    ghost var ok, job, replies;
    heard, ok, job, replies := ServerTurn(disk, root, wire, f, views, found);
    ghost var fs, done := Before(disk), sent;
    a := Attempt(ns, |wire|, total, meta, f.stamp, job == NextJob(root, wire, []), ok, !disk.faulted);
    if sent {
      Concluded(views, root, rel, s, f.back, job, replies, a);
      var outcome := new Source(heard[HEADER_SIZE..], true, 0);
      sent := WaitForAck(outcome);
    }
    SessionOutcome(disk.mayFail, views, fs, disk.files, root, rel, s, blockSize, f, wire, done, job, replies, sent, a);
    if StagedPrefix(found, rel, s) {
      SentIsCommitted(disk.mayFail, fs, disk.files, root, rel, s, blockSize, f, sent, a);
    }
  }

  lemma SameStaged(fs: Files, found: Files, rel: text, s: text)
    requires Get(found, Current(rel).Temp()) == Get(fs, Current(rel).Temp())
    ensures Content(found, Current(rel).Temp()) == Content(fs, Current(rel).Temp())
    ensures StagedPrefix(found, rel, s) <==> StagedPrefix(fs, rel, s)
  {
  }

  /** Like SessionStaysFinished, but the session may also be the one that finishes. */
  lemma SessionFinishes(mayFail: bool, fs: Files, gs: Files, root: text, rel: text, s: text, blockSize: nat,
          f: Fortune, sent: bool, a: Attempt)
    requires SessionDone(mayFail, fs, gs, root, rel, s, blockSize, f, sent, a)
    requires Sendable(root, rel, s) && StagedPrefix(fs, rel, s) && Tree(fs)
    ensures StagedPrefix(gs, rel, s) && TargetOk(fs, gs, rel, s)
    ensures WayClear(fs, rel) ==> WayClear(gs, rel)
    ensures Finished(fs, rel, s) || Undisturbed(mayFail, fs, rel, s, blockSize, f) ==> Finished(gs, rel, s)
  {
    hide Session, Sendable, StagedPrefix, Tree, Fnv.Hash, SessionBytes, Chunked, WayClear, Acceptable, Spot.Temp;
    hide Spot.Target, Undisturbed;
    SessionKeepsPrefix(fs, gs, root, rel, s, a);
    if WayClear(fs, rel) {
      SessionKeepsWay(fs, gs, root, rel, s, a);
    }
    if Finished(fs, rel, s) {
      SessionStaysFinished(fs, gs, root, rel, s, a);
    } else {
      SentIsCommitted(mayFail, fs, gs, root, rel, s, blockSize, f, sent, a);
    }
  }

  /**
   * Any number of sessions in a row, each with its own fortune. Whatever happens, the staged file
   * stays a front of the source and the target is what it was, or the source. If the disk does not
   * fail and nothing is in the way at the beginning, one session with a smooth fortune anywhere in
   * the row is enough: at the end the source is at the target, unless an earlier session died
   * between the last block and the end, so that nothing is missing any more in what is staged.
   */
  method RunSessions(disk: Disk, root: text, rel: text, s: text, meta: Meta, blockSize: nat, fortunes: seq<Fortune>)
    requires disk.Valid() && !disk.locked && Sendable(root, rel, s) && 0 < blockSize < U32
    requires StagedPrefix(disk.files, rel, s)
    modifies disk
    ensures disk.Valid() && !disk.locked
    ensures StagedPrefix(disk.files, rel, s) && TargetKept(old(disk.files), disk.files, rel, s)
    ensures !disk.mayFail && WayClear(old(disk.files), rel) && blockSize <= MAX_BLOCK ==>
      (exists f :: f in fortunes && Smooth(rel, s, f)) ==>
      Get(disk.files, Current(rel).Target()) == Some(File(s)) || Content(disk.files, Current(rel).Temp()) == s
  {
    hide SessionDone, Sendable, WayClear, Spot.Target, Spot.Temp, Smooth, Undisturbed, Finished, StagedPrefix;
    hide Disciplined, Play;
    ghost var start := disk.files;
    ghost var clear := !disk.mayFail && WayClear(disk.files, rel) && blockSize <= MAX_BLOCK;
    for i := 0 to |fortunes|
      invariant disk.Valid() && !disk.locked
      invariant StagedPrefix(disk.files, rel, s) && TargetKept(start, disk.files, rel, s)
      invariant clear ==> WayClear(disk.files, rel)
      invariant clear && (exists f :: f in fortunes[..i] && Smooth(rel, s, f)) ==> Finished(disk.files, rel, s)
    {
      var f := fortunes[i];
      TakeNext(fortunes, i);
      var now := disk.files;
      ghost var before := now;
      TreeOf(disk);
      NoDirStaged(before, rel, s);
      var sent, a := RunSession(disk, root, rel, s, meta, blockSize, f, _ => now, now);
      SmoothIsUndisturbed(disk.mayFail, before, rel, s, blockSize, f);
      SessionFinishes(disk.mayFail, before, disk.files, root, rel, s, blockSize, f, sent, a);
    }
    assert fortunes[..|fortunes|] == fortunes;
    FinishedPrefix(disk.files, rel, s);
  }

  lemma NoDirStaged(fs: Files, rel: text, s: text)
    requires StagedPrefix(fs, rel, s)
    ensures !IsDir(fs, Current(rel).Temp())
  {
  }

  lemma SmoothIsUndisturbed(mayFail: bool, fs: Files, rel: text, s: text, blockSize: nat, f: Fortune)
    ensures !mayFail && WayClear(fs, rel) && blockSize <= MAX_BLOCK && Smooth(rel, s, f) ==>
      Undisturbed(mayFail, fs, rel, s, blockSize, f)
  {
  }

  lemma FinishedPrefix(fs: Files, rel: text, s: text)
    requires StagedPrefix(fs, rel, s)
    ensures Finished(fs, rel, s) ==>
      Get(fs, Current(rel).Target()) == Some(File(s)) || Content(fs, Current(rel).Temp()) == s
  {
  }

  // ---- One small file ------------------------------------------------------------------------------------------

  /** What starts with another message, cut anywhere, has no greeting. */
  lemma NoGreeting(root: text, h: Header, rest: text, wire: text)
    requires ValidHeader(h) && h.msgType != MSG_HELLO && h.msgType != MSG_QUERY_OFFSET
    requires wire <= EncodeHeader(h) + rest
    ensures Greetings(root, wire) == 0
  {
    hide EncodeHeader, FrontHeader, PathFits, CString;
    if |wire| < HEADER_SIZE {
      ShortFront(wire);
    } else {
      assert wire == EncodeHeader(h) + wire[HEADER_SIZE..];
      FrontOfEncoded(h, wire[HEADER_SIZE..]);
    }
  }

  lemma UploadGreetsNot(root: text, rel: text, s: text, total: u64, meta: Meta, wire: text)
    requires |rel| <= MAX_NET_PATH && wire <= SmallBytes(rel, s, total, meta)
    ensures Greetings(root, wire) == 0
  {
    hide EncodeHeader, SmallData, Greetings;
    BeginFits(rel, total, meta);
    var begin, data := BeginFrame(rel, total, meta), SmallData(s, total, meta);
    assert SmallBytes(rel, s, total, meta) == EncodeHeader(begin.header) + (begin.payload + data);
    NoGreeting(root, begin.header, begin.payload + data, wire);
  }

  /** The only reply is the outcome. */
  lemma UploadHeard(root: text, views: Views, s: text, back: nat, job: Job, ok: bool, out: text)
    requires Conversation(root, views, s, back, job, ok, out) && Greetings(root, s) == 0
    ensures job == NextJob(root, s, []) && (Acknowledges(Clip(out, back)) <==> ok && back >= HEADER_SIZE)
  {
    hide EncodeHeader, FrontHeader, NextJob, Concludes, Greetings, Greeted, Acknowledges, Clip, Silent;
    ConclusionHeard(out[0..], job, ok, Silent(root, s), back);
    assert out[0..] == out;
  }

  lemma SmallRoom(root: text, rel: text, s: text, total: u64, meta: Meta)
    requires Sendable(root, rel, s)
    ensures |rel| < MAX_PATH_LEN && |SmallBytes(rel, s, total, meta)| < RoomFor(rel, s)
  {
    hide EncodeHeader, InitHeader, Accepted, Fnv.Hash;
    AcceptedIsPlain(rel);
  }

  /**
   * send_remote_small_file against server_handle_connection. If the client takes the upload for
   * done, the server has committed the data and saved what it replaces; the data are the source if
   * it has the size the task says, and hash to the same in any case. If nothing is cut and nothing
   * fails, this is so exactly if the data hash to the same, their size can be taken, and nothing in
   * the files found under the mutex is in the way.
   */
  method RunSmallUpload(disk: Disk, root: text, rel: text, s: text, meta: Meta, f: Fortune, views: Views, found: Files)
    returns (sent: bool)
    requires disk.Valid() && !disk.locked && Sendable(root, rel, s) && !IsDirMode(meta.mode)
    requires Tree(found) && forall k :: Tree(views(k))
    modifies disk
    ensures Serviced(disk, found)
    ensures sent ==>
      && Get(disk.files, Current(rel).Target()) == Some(File(SmallPayload(s, meta)))
      && Current(rel).Temp() !in disk.files
      && (IsFile(Before(disk), Current(rel).Target()) ==>
        Get(disk.files, Version(f.stamp, rel).Target()) == Get(Before(disk), Current(rel).Target()))
      && Committed(Before(disk), disk.files, Current(rel), Version(f.stamp, rel), SmallPayload(s, meta))
      && (meta.fileSize == |s| <= MAX_BLOCK ==> SmallPayload(s, meta) == s)
      && (f.luck.hashable && Fnv.Hash(s) != 0 ==> Fnv.Hash(SmallPayload(s, meta)) == Fnv.Hash(s))
    ensures TargetAsBefore(Before(disk), disk.files, rel) ||
      Get(disk.files, Current(rel).Target()) == Some(File(SmallPayload(s, meta)))
    ensures !disk.mayFail && Smooth(rel, s, f) ==> (sent <==>
      && Takeable(s, meta) && (Fnv.Hash(s) == 0 || Fnv.Hash(SmallPayload(s, meta)) == Fnv.Hash(s))
      && Opens(Before(disk), root, rel, f.stamp)
      && !IsDir(WithDirs(Before(disk), Current(rel).Parent()), Current(rel).Target()))
  {
    hide Disciplined, Play, Tree, NextJob, Handled, PathFits, Fnv.Hash, SmallBytes, SmallPayload, Opens, WithDirs;
    hide TargetAsBefore;
    hide Spot.Temp, Spot.Target, Spot.Parent, Conversation, Clip, Acknowledges, RoomFor, Sendable, FrontHeader;
    hide Greetings, Committed;
    SmallRoom(root, rel, s, if f.luck.hashable then Fnv.Hash(s) else 0, meta);
    var sink := new Sink(f.room, 0);
    ghost var total;
    sent, total := SendSmallFile(s, sink, rel, meta, f.luck);
    UploadGreetsNot(root, rel, s, total, meta, sink.sent);
    var heard: text;
    ghost var ok, job, replies;
    heard, ok, job, replies := ServerTurn(disk, root, sink.sent, f, views, found);
    UploadHeard(root, views, sink.sent, f.back, job, ok, replies);
    assert sink.sent == SmallBytes(rel, s, total, meta)[..|sink.sent|];
    SmallUpload(Before(disk), disk.files, root, rel, s, total, meta, |sink.sent|, f.stamp, ok, !disk.faulted);
    if sent {
      var outcome := new Source(heard, true, 0);
      sent := WaitForAck(outcome);
    }
  }

  // ---- One message ---------------------------------------------------------------------------------------------

  /**
   * A request that is one frame, and its reply: the client takes it for done only if the server has
   * done the job in it, and exactly then if nothing is cut.
   */
  method RunFrame(disk: Disk, root: text, frame: Frame, f: Fortune, views: Views, found: Files)
    returns (sent: bool, ghost ok: bool, ghost job: Job)
    requires disk.Valid() && !disk.locked && WellFormed(frame)
    requires frame.header.msgType in {MSG_FILE_BEGIN, MSG_FILE_DELETE, MSG_FILE_RENAME}
    requires Tree(found) && forall k :: Tree(views(k))
    modifies disk
    ensures Serviced(disk, found)
    ensures Handled(Before(disk), disk.files, root, job, f.stamp, ok, !disk.faulted)
    ensures job == Idle || job == NextJob(root, EncodeFrame(frame), [])
    ensures sent ==> ok && job == NextJob(root, EncodeFrame(frame), [])
    ensures f.room >= |EncodeFrame(frame)| && f.back >= HEADER_SIZE ==>
      job == NextJob(root, EncodeFrame(frame), []) && (sent <==> ok)
  {
    hide Disciplined, Play, Tree, NextJob, Conversation, Clip, Acknowledges, FrontHeader, Greetings, Handled;
    hide EncodeFrame;
    var sink := new Sink(f.room, 0);
    sent := SendFrame(sink, frame);
    FrameGreetsNot(root, frame, sink.sent);
    assert EncodeFrame(frame)[..|EncodeFrame(frame)|] == EncodeFrame(frame);
    assert EncodeFrame(frame)[..|sink.sent|] == sink.sent;
    if |sink.sent| < |EncodeFrame(frame)| {
      NoJobYet(root, frame, |sink.sent|, []);
      assert NextJob(root, sink.sent, []) == Idle;
    } else {
      assert sink.sent == EncodeFrame(frame);
    }
    var heard: text;
    ghost var replies;
    heard, ok, job, replies := ServerTurn(disk, root, sink.sent, f, views, found);
    UploadHeard(root, views, sink.sent, f.back, job, ok, replies);
    if sent {
      var outcome := new Source(heard, true, 0);
      sent := WaitForAck(outcome);
    }
  }

  lemma FrameGreetsNot(root: text, f: Frame, wire: text)
    requires ValidHeader(f.header) && f.header.msgType != MSG_HELLO && f.header.msgType != MSG_QUERY_OFFSET
    requires wire <= EncodeFrame(f)
    ensures Greetings(root, wire) == 0
  {
    hide EncodeHeader, Greetings;
    NoGreeting(root, f.header, f.payload, wire);
  }

  /**
   * send_remote_delete against server_handle_connection: if the client takes it for done, the node
   * is in the trash; if nothing is cut and nothing fails, this is so exactly if nothing in the files
   * found under the mutex is in the way. Otherwise at most directories were made.
   */
  method RunDelete(disk: Disk, root: text, rel: text, f: Fortune, views: Views, found: Files) returns (sent: bool)
    requires disk.Valid() && !disk.locked && NulFree(rel) && |rel| <= MAX_NET_PATH
    requires Tree(found) && forall k :: Tree(views(k))
    modifies disk
    ensures Serviced(disk, found)
    ensures sent ==> disk.files == Trashed(Before(disk), rel, f.stamp)
    ensures disk.files == Trashed(Before(disk), rel, f.stamp) ||
      Confined(Before(disk), disk.files, {}, {Trash(f.stamp, rel).Parent()})
    ensures !disk.mayFail && Smooth(rel, [], f) ==> (sent <==> TrashWorks(Before(disk), root, rel, f.stamp))
  {
    hide Disciplined, Play, Tree, NextJob, EncodeFrame, Trashed, Confined, TrashWorks, Spot.Parent, Spot.Target;
    WholeFrame(DeleteFrame(rel), rel);
    DeleteArrives(root, rel, |EncodeFrame(DeleteFrame(rel))|);
    ghost var ok, job;
    sent, ok, job := RunFrame(disk, root, DeleteFrame(rel), f, views, found);
    ConfinedRefl(Before(disk), {}, {Trash(f.stamp, rel).Parent()});
  }

  lemma WholeFrame(frame: Frame, rel: text)
    requires |frame.payload| <= |rel|
    ensures |EncodeFrame(frame)| < RoomFor(rel, []) && EncodeFrame(frame)[..|EncodeFrame(frame)|] == EncodeFrame(frame)
  {
    hide EncodeHeader;
  }

  /**
   * send_remote_dir_create: if the client takes it for done, exactly the missing directories have
   * been made; if nothing is cut and nothing fails, this is so exactly if no file is in the way.
   */
  method RunDirCreate(disk: Disk, root: text, rel: text, meta: Meta, f: Fortune, views: Views, found: Files)
    returns (sent: bool)
    requires disk.Valid() && !disk.locked && NulFree(rel) && |rel| <= MAX_NET_PATH
    requires meta.mode / 0x1000 % 0x10 in {0, 4}
    requires Tree(found) && forall k :: Tree(views(k))
    modifies disk
    ensures Serviced(disk, found)
    ensures sent ==> disk.files == WithDirs(Before(disk), Current(rel).Target())
    ensures Confined(Before(disk), disk.files, {}, {Current(rel).Target()})
    ensures !disk.mayFail && Smooth(rel, [], f) ==>
      (sent <==> PathFits(root, rel) && Makeable(Before(disk), Current(rel).Target()))
  {
    hide Disciplined, Play, Tree, NextJob, EncodeFrame, Confined, PathFits, WithDirs, Makeable, Spot.Target;
    var frame := DirFrame(rel, meta);
    DirModeIff(meta.mode);
    hide DirMode, IsDirMode;
    WholeFrame(frame, rel);
    DirArrives(root, rel, meta, |EncodeFrame(frame)|);
    ghost var ok, job;
    sent, ok, job := RunFrame(disk, root, frame, f, views, found);
    ConfinedRefl(Before(disk), {}, {Current(rel).Target()});
  }

  /**
   * send_remote_rename: if the client takes it for done, the rename has happened; if nothing is cut
   * and nothing fails, this is so exactly if it is possible. Otherwise it may have happened without
   * the client's knowing, or at most directories were made.
   */
  method RunRename(disk: Disk, root: text, oldRel: text, rel: text, f: Fortune, views: Views, found: Files)
    returns (sent: bool)
    requires disk.Valid() && !disk.locked && NulFree(oldRel) && NulFree(rel) && oldRel != [] && rel != []
    requires Tree(found) && forall k :: Tree(views(k))
    modifies disk
    ensures Serviced(disk, found)
    ensures sent ==> RenamedTo(Before(disk), disk.files, oldRel, rel)
    ensures RenamedTo(Before(disk), disk.files, oldRel, rel) ||
      Confined(Before(disk), disk.files, {}, {Current(rel).Parent()})
    ensures !disk.mayFail && Smooth(oldRel + [NUL] + rel, [], f) ==>
      (sent <==> |oldRel| + 1 + |rel| <= MAX_NET_PATH && RenameWorks(Before(disk), root, oldRel, rel))
  {
    hide Disciplined, Play, Tree, NextJob, EncodeFrame, Confined, WithDirs, Makeable, Spot.Target, Spot.Parent;
    hide CurrentPath, SplitRename, Succeeds, Effect;
    ConfinedRefl(disk.files, {}, {Current(rel).Parent()});
    if |oldRel| + 1 + |rel| > MAX_NET_PATH {
      return false;
    }
    var frame := RenameFrame(oldRel + [NUL] + rel);
    WholeFrame(frame, oldRel + [NUL] + rel);
    RenameArrives(root, oldRel, rel, |EncodeFrame(frame)|);
    ghost var ok, job;
    sent, ok, job := RunFrame(disk, root, frame, f, views, found);
    ConfinedRefl(Before(disk), {}, {Current(rel).Parent()});
  }
}
