/** The sending side of src/transfer.c. */
module Client {
  import opened Bytes
  import opened Io
  import opened Wire
  import opened Paths
  import opened FileTree
  import opened Store
  import opened Server
  import opened Connection
  import opened Resume
  import Fnv

  // ---- Large files ------------------------------------------------------------------------------------------

  ghost function BlockBytes(s: text, pos: nat, ns: seq<nat>, total: u64, meta: Meta): text
    requires Chunked(s, pos, ns)
    decreases ns
  {
    if ns == [] then []
    else
      ChunkedNext(s, pos, ns);
      EncodeFrame(BlockFrame(s, pos, ns[0], total, meta)) + BlockBytes(s, pos + ns[0], ns[1..], total, meta)
  }

  lemma {:induction false} SumConcat(ns: seq<nat>, ms: seq<nat>)
    ensures Sum(ns + ms) == Sum(ns) + Sum(ms)
  {
    ConcatTail(ns, ms);
    if ns != [] {
      SumConcat(ns[1..], ms);
    }
  }

  lemma DataFirst(s: text, pos: nat, ns: seq<nat>, total: u64, meta: Meta)
    requires Chunked(s, pos, ns) && ns != []
    ensures 0 < ns[0] < U32 && pos + ns[0] <= |s| && Chunked(s, pos + ns[0], ns[1..])
    ensures EncodeFrames(DataFrames(s, pos, ns, total, meta)) ==
      EncodeFrame(BlockFrame(s, pos, ns[0], total, meta)) +
        EncodeFrames(DataFrames(s, pos + ns[0], ns[1..], total, meta))
  {
    hide EncodeFrame, BlockFrame;
    ChunkedNext(s, pos, ns);
    var f, later := BlockFrame(s, pos, ns[0], total, meta), DataFrames(s, pos + ns[0], ns[1..], total, meta);
    assert ([f] + later)[1..] == later;
  }

  /** The session goes on behind the blocks sent so far as if it started there. */
  lemma {:induction false} SessionGoesOn(s: text, pos: nat, ns: seq<nat>, ms: seq<nat>, total: u64, meta: Meta)
    requires Chunked(s, pos, ns) && Chunked(s, pos + Sum(ns), ms)
    ensures Chunked(s, pos, ns + ms)
    ensures EncodeFrames(DataFrames(s, pos, ns + ms, total, meta)) ==
      BlockBytes(s, pos, ns, total, meta) + EncodeFrames(DataFrames(s, pos + Sum(ns), ms, total, meta))
    decreases ns
  {
    hide EncodeFrame, BlockFrame, EncodeFrames, DataFrames;
    SumConcat(ns, ms);
    ConcatTail(ns, ms);
    if ns != [] {
      ChunkedNext(s, pos, ns);
      SessionGoesOn(s, pos + ns[0], ns[1..], ms, total, meta);
      DataFirst(s, pos, ns + ms, total, meta);
      var f := BlockFrame(s, pos, ns[0], total, meta);
      ConcatAssociative(EncodeFrame(f), BlockBytes(s, pos + ns[0], ns[1..], total, meta),
        EncodeFrames(DataFrames(s, pos + Sum(ns), ms, total, meta)));
    }
  }

  lemma {:induction false} BlockBytesNext(s: text, pos: nat, ns: seq<nat>, n: nat, total: u64, meta: Meta)
    requires Chunked(s, pos, ns) && 0 < n < U32 && pos + Sum(ns) + n <= |s| <= MAX_OFFSET
    ensures Chunked(s, pos, ns + [n])
    ensures BlockBytes(s, pos, ns + [n], total, meta) ==
      BlockBytes(s, pos, ns, total, meta) + EncodeFrame(BlockFrame(s, pos + Sum(ns), n, total, meta))
    decreases ns
  {
    hide EncodeFrame, BlockFrame;
    SumConcat(ns, [n]);
    ConcatTail(ns, [n]);
    if ns == [] {
      assert [n][1..] == [];
      ConcatTail(EncodeFrame(BlockFrame(s, pos, n, total, meta)), []);
    } else {
      ChunkedNext(s, pos, ns);
      BlockBytesNext(s, pos + ns[0], ns[1..], n, total, meta);
      ConcatAssociative(EncodeFrame(BlockFrame(s, pos, ns[0], total, meta)),
        BlockBytes(s, pos + ns[0], ns[1..], total, meta),
        EncodeFrame(BlockFrame(s, pos + Sum(ns), n, total, meta)));
    }
  }

  /** The rest of a file in full blocks. */
  ghost function Split(n: nat): (ns: seq<nat>)
    ensures Sum(ns) == n && forall k :: k in ns ==> 0 < k <= MAX_BLOCK
  {
    if n == 0 then [] else if n <= MAX_BLOCK then [n] else [MAX_BLOCK] + Split(n - MAX_BLOCK)
  }

  /** `sent` is the front of a session for `s` from `pos` on. */
  ghost predicate Front(sent: text, rel: text, s: text, pos: nat, ns: seq<nat>, total: u64, meta: Meta) {
    && |rel| <= MAX_NET_PATH && Chunked(s, pos, ns) && pos + Sum(ns) >= |s|
    && sent <= SessionBytes(rel, s, pos, ns, total, meta)
  }

  /** Stopping after some whole blocks leaves the front of a session. */
  lemma WholeIsFront(rel: text, s: text, pos: nat, ns: seq<nat>, total: u64, meta: Meta) returns (all: seq<nat>)
    requires |rel| <= MAX_NET_PATH && Chunked(s, pos, ns) && |s| <= MAX_OFFSET
    ensures Front(EncodeFrame(QueryFrame(rel)) + BlockBytes(s, pos, ns, total, meta), rel, s, pos, all, total, meta)
  {
    hide EncodeFrame, EncodeFrames, DataFrames, BlockBytes, QueryFrame;
    var at := pos + Sum(ns);
    var ms := Split(if at < |s| then |s| - at else 0);
    SessionGoesOn(s, pos, ns, ms, total, meta);
    SumConcat(ns, ms);
    all := ns + ms;
    ConcatAssociative(EncodeFrame(QueryFrame(rel)), BlockBytes(s, pos, ns, total, meta),
      EncodeFrames(DataFrames(s, at, ms, total, meta)));
  }

  /** Stopping after some whole blocks and any part of the next leaves the front of a session. */
  lemma StoppedIsFront(rel: text, s: text, pos: nat, ns: seq<nat>, n: nat, total: u64, meta: Meta, cut: nat)
    returns (all: seq<nat>)
    requires |rel| <= MAX_NET_PATH && Chunked(s, pos, ns) && 0 < n < U32 && pos + Sum(ns) + n <= |s| <= MAX_OFFSET
    requires cut <= |EncodeFrame(BlockFrame(s, pos + Sum(ns), n, total, meta))|
    ensures Front(EncodeFrame(QueryFrame(rel)) + BlockBytes(s, pos, ns, total, meta) +
      EncodeFrame(BlockFrame(s, pos + Sum(ns), n, total, meta))[..cut], rel, s, pos, all, total, meta)
  {
    hide EncodeFrame, EncodeFrames, DataFrames, BlockBytes, BlockFrame, QueryFrame;
    BlockBytesNext(s, pos, ns, n, total, meta);
    all := WholeIsFront(rel, s, pos, ns + [n], total, meta);
    var sent := EncodeFrame(QueryFrame(rel)) + BlockBytes(s, pos, ns, total, meta);
    var block := EncodeFrame(BlockFrame(s, pos + Sum(ns), n, total, meta));
    ConcatAssociative(EncodeFrame(QueryFrame(rel)), BlockBytes(s, pos, ns, total, meta), block);
    assert sent + block[..cut] <= sent + block;
  }

  // ---- The code ------------------------------------------------------------------------------------------------

  /** send_file_block. */
  method SendFileBlock(sink: Sink, buf: text, offset: u64, total: u64, meta: Meta) returns (ok: bool)
    requires |buf| < U32
    modifies sink
    ensures var f := Frame(InitHeader(MSG_FILE_BLOCK).(fileSize := meta.fileSize, offset := offset, dataLen := |buf|,
          mode := meta.mode, mtime := meta.mtime, totalHash := total, blockHash := Fnv.Hash(buf)), buf);
      && (ok <==> |EncodeFrame(f)| <= old(sink.room))
      && sink.sent == old(sink.sent) + EncodeFrame(f)[..Min(|EncodeFrame(f)|, old(sink.room))]
      && sink.room == old(sink.room) - Min(|EncodeFrame(f)|, old(sink.room))
  {
    hide EncodeFrame;
    var hash := Fnv.HashBuffer(buf);
    ok := SendFrame(sink,
      Frame(InitHeader(MSG_FILE_BLOCK).(fileSize := meta.fileSize, offset := offset, dataLen := |buf|,
      mode := meta.mode, mtime := meta.mtime, totalHash := total, blockHash := hash), buf));
  }

  /**
   * What the client's side does by chance: whether opening the file and allocating a buffer work,
   * whether the file can be hashed, after how many bytes reading fails, and how often a call is
   * interrupted.
   */
  datatype Luck = Luck(opens: bool, buffer: bool, hashable: bool, failsAt: Option<nat>, hiccups: nat) {
    /** Nothing fails on the client's side. */
    predicate Good() { opens && buffer && hashable && failsAt.None? }

    /** The file as it can be read. */
    function Readable(s: text): text { if failsAt.Some? then s[..Min(failsAt.value, |s|)] else s }
  }

  /** The first reply is an offset. */
  predicate OffersOffset(replies: text) {
    FrontHeader(replies).Some? && FrontHeader(replies).value.msgType == MSG_OFFSET_REPLY
  }

  /** What wait_for_ack takes for a success. */
  predicate Acknowledges(replies: text) {
    FrontHeader(replies).Some? && FrontHeader(replies).value.msgType in {MSG_ACK, MSG_OFFSET_REPLY}
  }

  /** query_remote_offset. */
  method QueryRemoteOffset(sink: Sink, replies: Source, rel: text) returns (offset: Option<u64>)
    requires replies.Valid() && sink.sent == [] && |rel| <= MAX_NET_PATH
    modifies sink, replies
    ensures replies.Valid() && sink.room == old(sink.room) - |sink.sent|
    ensures sink.sent <= EncodeFrame(QueryFrame(rel)) && (offset.Some? ==> sink.sent == EncodeFrame(QueryFrame(rel)))
    ensures offset.Some? <==> |EncodeFrame(QueryFrame(rel))| <= old(sink.room) && OffersOffset(old(replies.Rest()))
    ensures offset.Some? ==>
      offset.value == FrontHeader(old(replies.Rest())).value.offset &&
      replies.Rest() == old(replies.Rest())[HEADER_SIZE..]
    ensures offset.None? && OffersOffset(old(replies.Rest())) ==> sink.room == 0
  {
    hide EncodeFrame, FrontHeader;
    var ok := SendFrame(sink, QueryFrame(rel));
    if !ok {
      return None;
    }
    var reply := RecvHeader(replies);
    if reply.None? || reply.value.msgType != MSG_OFFSET_REPLY {
      return None;
    }
    offset := Some(reply.value.offset);
  }

  /** wait_for_ack. */
  method WaitForAck(replies: Source) returns (ok: bool)
    requires replies.Valid()
    modifies replies
    ensures replies.Valid()
    ensures ok <==> Acknowledges(old(replies.Rest()))
  {
    hide FrontHeader;
    var reply := RecvHeader(replies);
    ok := reply.Some? && reply.value.msgType in {MSG_ACK, MSG_OFFSET_REPLY};
  }

  /** The loop of send_remote_large_file and the end behind it. */
  method StreamBlocks(s: text, sink: Sink, rel: text, pos: nat, total: u64, meta: Meta, blockSize: nat, luck: Luck)
    returns (ok: bool, ghost ns: seq<nat>)
    requires |rel| <= MAX_NET_PATH && |s| <= MAX_OFFSET && pos <= MAX_OFFSET && 0 < blockSize < U32
    requires sink.sent == EncodeFrame(QueryFrame(rel))
    modifies sink
    ensures Front(sink.sent, rel, s, pos, ns, total, meta)
    ensures sink.room == old(sink.room) + |old(sink.sent)| - |sink.sent|
    ensures ok ==> sink.sent == SessionBytes(rel, s, pos, ns, total, meta) && forall n :: n in ns ==> n <= blockSize
    ensures !ok && luck.Good() ==> sink.room == 0
  {
    hide EncodeFrame, EncodeFrames, DataFrames, BlockBytes, QueryFrame, EndFrame, Front, Fnv.Hash, Chunked;
    hide SessionBytes, Sum;
    ghost var query := EncodeFrame(QueryFrame(rel));
    var at := pos;
    var data := luck.Readable(s);
    var input := new Source(data, luck.failsAt.Some?, luck.hiccups);
    input.pos := Min(at, |data|);
    ns := [];
    NothingSent(s, pos, total, meta);
    while true
      invariant input.Valid() && at == pos + Sum(ns) && Chunked(s, pos, ns) && at <= MAX_OFFSET
      invariant input.pos == Min(at, |data|) && forall n :: n in ns ==> n <= blockSize
      invariant sink.sent == query + BlockBytes(s, pos, ns, total, meta)
      invariant sink.room == old(sink.room) + |old(sink.sent)| - |sink.sent|
      decreases |input.data| - input.pos, input.hiccups
    {
      var r := input.Read(blockSize);
      if r.ReadInterrupted? {
        continue;
      }
      if r.ReadFailed? {
        ns := WholeIsFront(rel, s, pos, ns, total, meta);
        return false, ns;
      }
      if r.bytes == [] {
        break;
      }
      var n := |r.bytes|;
      ReadableAt(luck, s, at, n);
      ok := SendFileBlock(sink, r.bytes, at, total, meta);
      if !ok {
        ns := StoppedIsFront(rel, s, pos, ns, n, total, meta, |sink.sent| - |query +
          BlockBytes(s, pos, ns, total, meta)|);
        return;
      }
      BlockBytesNext(s, pos, ns, n, total, meta);
      ConcatAssociative(query, BlockBytes(s, pos, ns, total, meta), EncodeFrame(BlockFrame(s, at, n, total, meta)));
      SumNext(ns, n);
      ns := ns + [n];
      at := at + n;
    }
    ok := SendFrame(sink, EndFrame(total, meta));
    EndCloses(rel, s, pos, ns, total, meta);
  }

  /** What can be read is the file's, and without failures all of it. */
  lemma ReadableAt(luck: Luck, s: text, at: nat, n: nat)
    requires at + n <= |luck.Readable(s)|
    ensures |luck.Readable(s)| <= |s| && luck.Readable(s)[at..at + n] == s[at..at + n]
    ensures luck.failsAt.None? ==> luck.Readable(s) == s
  {
  }

  lemma NothingSent(s: text, pos: nat, total: u64, meta: Meta)
    requires |s| <= MAX_OFFSET
    ensures Chunked(s, pos, []) && Sum([]) == 0 && BlockBytes(s, pos, [], total, meta) == []
  {
  }

  lemma SumNext(ns: seq<nat>, n: nat)
    ensures Sum(ns + [n]) == Sum(ns) + n
  {
    SumConcat(ns, [n]);
    assert [n][1..] == [];
  }

  /** Behind all blocks, the end completes the session. */
  lemma EndCloses(rel: text, s: text, pos: nat, ns: seq<nat>, total: u64, meta: Meta)
    requires |rel| <= MAX_NET_PATH && Chunked(s, pos, ns) && |s| <= pos + Sum(ns) <= MAX_OFFSET
    ensures var sent, end := EncodeFrame(QueryFrame(rel)) +
      BlockBytes(s, pos, ns, total, meta), EncodeFrame(EndFrame(total, meta));
      && SessionBytes(rel, s, pos, ns, total, meta) == sent + end
      && (forall cut :: 0 <= cut <= |end| ==> Front(sent + end[..cut], rel, s, pos, ns, total, meta))
      && end[..|end|] == end
  {
    hide EncodeFrame, QueryFrame, EndFrame, BlockBytes;
    SessionGoesOn(s, pos, ns, [], total, meta);
    assert ns + [] == ns;
    var end := [EndFrame(total, meta)];
    assert end[1..] == [] && EncodeFrames(end) == EncodeFrame(end[0]) + [] == EncodeFrame(end[0]);
    ConcatAssociative(EncodeFrame(QueryFrame(rel)), BlockBytes(s, pos, ns, total, meta), EncodeFrame(end[0]));
  }

  /**
   * send_remote_large_file up to its wait for the acknowledgement, for a file whose content does
   * not change. However reads and writes go, what is on the wire is the front of a session from the
   * offset in the reply, and all of it when this part is done; without a reply it is no more than
   * the query. With good luck, only the connection or the reply keep it from being done.
   */
  method SendLargeFile(s: text, sink: Sink, replies: Source, rel: text, meta: Meta, blockSize: nat, luck: Luck)
    returns (ok: bool, ghost pos: nat, ghost ns: seq<nat>, ghost total: u64)
    requires replies.Valid() && sink.sent == [] && |s| <= MAX_OFFSET && 0 < blockSize < U32
    modifies sink, replies
    ensures replies.Valid() && sink.room == old(sink.room) - |sink.sent|
    ensures |rel| <= MAX_NET_PATH ==> Front(sink.sent, rel, s, pos, ns, total, meta)
    ensures |rel| > MAX_NET_PATH ==> sink.sent == [] && !ok
    ensures (total == Fnv.Hash(s) || total == 0) && (luck.hashable && ok ==> total == Fnv.Hash(s))
    ensures ok ==> sink.sent == SessionBytes(rel, s, pos, ns, total, meta) && forall n :: n in ns ==> n <= blockSize
    ensures ok ==> OffersOffset(old(replies.Rest())) && replies.Rest() == old(replies.Rest())[HEADER_SIZE..]
    ensures match FrontHeader(old(replies.Rest()))
      case None => !ok && (|rel| <= MAX_NET_PATH ==> sink.sent <= EncodeFrame(QueryFrame(rel)))
      case Some(reply) => pos == reply.offset
    ensures luck.Good() && |rel| <= MAX_NET_PATH && OffersOffset(old(replies.Rest())) && pos <= MAX_OFFSET ==>
      ok || sink.room == 0
  {
    hide EncodeFrame, Front, FrontHeader, Fnv.Hash, Fnv.Range, Fnv.RunsDry, Chunked, SessionBytes, QueryFrame;
    ghost var reply := FrontHeader(replies.Rest());
    ok, pos, ns, total := false, if reply.Some? then reply.value.offset else 0, [], 0;
    if |rel| > MAX_NET_PATH {
      return;
    }
    var offset := QueryRemoteOffset(sink, replies, rel);
    if offset.None? || !luck.opens {
      ns := QueryIsFront(sink.sent, rel, s, pos, total, meta);
      return;
    }
    var hash := HashSource(s, luck);
    total := hash;
    if offset.value > MAX_OFFSET || !luck.buffer {
      ns := QueryIsFront(sink.sent, rel, s, pos, total, meta);
      return;
    }
    ok, ns := StreamBlocks(s, sink, rel, offset.value, hash, meta, blockSize, luck);
  }

  /** hash_file_fnv1a of the source. */
  method HashSource(s: text, luck: Luck) returns (hash: u64)
    ensures hash == if luck.hashable then Fnv.Hash(s) else 0
  {
    hide Fnv.Hash, Fnv.Range, Fnv.RunsDry;
    WholeRange(s);
    var fd := new Source(s, !luck.hashable, luck.hiccups);
    hash := Fnv.HashFdRange(fd, 0, None, true);
  }

  /** send_remote_large_file: it counts as done only if the session is on the wire and was acknowledged. */
  method SendRemoteLargeFile(s: text, sink: Sink, replies: Source, rel: text, meta: Meta, blockSize: nat, luck: Luck)
    returns (ok: bool, ghost pos: nat, ghost ns: seq<nat>, ghost total: u64)
    requires replies.Valid() && sink.sent == [] && |s| <= MAX_OFFSET && 0 < blockSize < U32
    modifies sink, replies
    ensures |rel| <= MAX_NET_PATH ==> Front(sink.sent, rel, s, pos, ns, total, meta)
    ensures |rel| > MAX_NET_PATH ==> sink.sent == [] && !ok
    ensures total == Fnv.Hash(s) || total == 0
    ensures ok ==> sink.sent == SessionBytes(rel, s, pos, ns, total, meta)
    ensures ok ==> OffersOffset(old(replies.Rest())) && Acknowledges(old(replies.Rest())[HEADER_SIZE..])
    ensures FrontHeader(old(replies.Rest())).Some? ==> pos == FrontHeader(old(replies.Rest())).value.offset
    ensures luck.Good() && |rel| <= MAX_NET_PATH && OffersOffset(old(replies.Rest())) && pos <= MAX_OFFSET ==>
      ok || sink.room == 0 || !Acknowledges(old(replies.Rest())[HEADER_SIZE..])
  {
    hide EncodeFrame, Front, FrontHeader, Fnv.Hash, Chunked, SessionBytes, QueryFrame;
    ok, pos, ns, total := SendLargeFile(s, sink, replies, rel, meta, blockSize, luck);
    if ok {
      ok := WaitForAck(replies);
    }
  }

  lemma QueryIsFront(sent: text, rel: text, s: text, pos: nat, total: u64, meta: Meta) returns (ns: seq<nat>)
    requires |rel| <= MAX_NET_PATH && sent <= EncodeFrame(QueryFrame(rel)) && |s| <= MAX_OFFSET
    ensures Front(sent, rel, s, pos, ns, total, meta)
  {
    hide EncodeFrame, QueryFrame;
    NothingSent(s, pos, total, meta);
    ns := WholeIsFront(rel, s, pos, [], total, meta);
    assert EncodeFrame(QueryFrame(rel)) + [] == EncodeFrame(QueryFrame(rel));
  }

  // ---- Small files -----------------------------------------------------------------------------------------------

  function BeginFrame(rel: text, total: u64, meta: Meta): Frame
    requires |rel| <= MAX_NET_PATH
  {
    Frame(InitHeader(MSG_FILE_BEGIN).(pathLen := |rel|, fileSize := meta.fileSize, mode := meta.mode,
      mtime := meta.mtime, totalHash := total), rel)
  }

  /** The data of a small file: as much as the task says it has, reduced by the 32-bit length field. */
  function SmallPayload(s: text, meta: Meta): text { if meta.fileSize > |s| then [] else s[..meta.fileSize % U32] }

  /** Its only block. */
  function SmallBlock(s: text, total: u64, meta: Meta): Frame {
    var data := SmallPayload(s, meta);
    Frame(InitHeader(MSG_FILE_BLOCK).(fileSize := meta.fileSize, dataLen := |data|, mode := meta.mode,
          mtime := meta.mtime, totalHash := total, blockHash := Fnv.Hash(data)), data)
  }

  /**
   * Everything send_remote_small_file sends behind FILE_BEGIN: nothing if the file has become
   * shorter than the task says.
   */
  function SmallData(s: text, total: u64, meta: Meta): text {
    if meta.fileSize > |s| then []
    else
      var block := if meta.fileSize == 0 then [] else EncodeFrame(SmallBlock(s, total, meta));
      block + EncodeFrame(EndFrame(total, meta))
  }

  function SmallBytes(rel: text, s: text, total: u64, meta: Meta): text
    requires |rel| <= MAX_NET_PATH
  {
    EncodeFrame(BeginFrame(rel, total, meta)) + SmallData(s, total, meta)
  }

  /** The file is read at once; if it is shorter than the task says or cannot be read, nothing is sent. */
  method SendSmallBlock(s: text, sink: Sink, total: u64, meta: Meta, luck: Luck) returns (ok: bool)
    modifies sink
    ensures sink.room == old(sink.room) + |old(sink.sent)| - |sink.sent|
    ensures ok ==> meta.fileSize <= |s|
    ensures var block := if meta.fileSize == 0 then [] else EncodeFrame(SmallBlock(s, total, meta));
      && (ok ==> sink.sent == old(sink.sent) + block)
      && (!ok ==>
        sink.sent == old(sink.sent) ||
        (meta.fileSize <= |s| && exists k :: 0 <= k <= |block| && sink.sent == old(sink.sent) + block[..k]))
    ensures luck.Good() && meta.fileSize <= |s| && !ok ==> sink.room == 0
    ensures ok <==>
      luck.opens && luck.buffer && meta.fileSize <= |luck.Readable(s)| &&
      (if meta.fileSize == 0 then 0 else |EncodeFrame(SmallBlock(s, total, meta))|) <= old(sink.room)
  {
    hide EncodeFrame, Fnv.Hash;
    ok := luck.opens && luck.buffer;
    if ok && meta.fileSize > 0 {
      var data := luck.Readable(s);
      ReadableAt(luck, s, 0, 0);
      var input := new Source(data, luck.failsAt.Some?, luck.hiccups);
      var buf := input.ReadFull(meta.fileSize);
      ok := buf.Some?;
      if ok {
        ReadableAt(luck, s, 0, meta.fileSize);
        assert buf.value[..meta.fileSize % U32] == SmallPayload(s, meta);
        ok := SendFileBlock(sink, buf.value[..meta.fileSize % U32], 0, total, meta);
        ghost var block := EncodeFrame(SmallBlock(s, total, meta));
        assert block[..|block|] == block;
      }
    }
  }

  /**
   * send_remote_small_file up to its wait for the acknowledgement, for a file `s` that may have
   * changed since the task recorded its size.
   */
  method SendSmallFile(s: text, sink: Sink, rel: text, meta: Meta, luck: Luck) returns (ok: bool, ghost total: u64)
    requires sink.sent == [] && |rel| < MAX_PATH_LEN
    modifies sink
    ensures total == if luck.hashable then Fnv.Hash(s) else 0
    ensures sink.sent <= SmallBytes(rel, s, total, meta) && sink.room == old(sink.room) - |sink.sent|
    ensures ok ==> sink.sent == SmallBytes(rel, s, total, meta) && meta.fileSize <= |s|
    ensures luck.Good() && meta.fileSize <= |s| && !ok ==> sink.room == 0
  {
    hide EncodeFrame, Fnv.Hash, BeginFrame, EndFrame, SmallBlock, SmallBytes;
    var hash := HashSource(s, luck);
    total := hash;
    SmallFronts(rel, s, total, meta);
    ok := SendFrame(sink, BeginFrame(rel, hash, meta));
    if ok {
      ok := SendSmallBlock(s, sink, hash, meta, luck);
    }
    if ok {
      ok := SendFrame(sink, EndFrame(hash, meta));
    }
  }

  /** Stopping anywhere in a small upload leaves a front of it. */
  lemma SmallFronts(rel: text, s: text, total: u64, meta: Meta)
    requires |rel| <= MAX_NET_PATH
    ensures var begin, end := EncodeFrame(BeginFrame(rel, total, meta)), EncodeFrame(EndFrame(total, meta));
      var block := if meta.fileSize == 0 then [] else EncodeFrame(SmallBlock(s, total, meta));
      var all := SmallBytes(rel, s, total, meta);
      && begin <= all && begin[..|begin|] == begin && end[..|end|] == end
      && (forall k :: 0 <= k <= |begin| ==> begin[..k] <= all)
      && (meta.fileSize <= |s| ==>
        && all == begin + block + end
        && (forall k :: 0 <= k <= |block| ==> begin + block[..k] <= all)
        && (forall k :: 0 <= k <= |end| ==> begin + block + end[..k] <= all))
  {
    hide EncodeFrame, BeginFrame, EndFrame, SmallBlock;
    var begin, end := EncodeFrame(BeginFrame(rel, total, meta)), EncodeFrame(EndFrame(total, meta));
    var block := if meta.fileSize == 0 then [] else EncodeFrame(SmallBlock(s, total, meta));
    ConcatAssociative(begin, block, end);
  }

  /** send_remote_small_file. */
  method SendRemoteSmallFile(s: text, sink: Sink, replies: Source, rel: text, meta: Meta, luck: Luck)
    returns (ok: bool, ghost total: u64)
    requires replies.Valid() && sink.sent == [] && |rel| < MAX_PATH_LEN
    modifies sink, replies
    ensures total == if luck.hashable then Fnv.Hash(s) else 0
    ensures sink.sent <= SmallBytes(rel, s, total, meta)
    ensures ok ==>
      sink.sent == SmallBytes(rel, s, total, meta) && meta.fileSize <= |s| && Acknowledges(old(replies.Rest()))
    ensures luck.Good() && meta.fileSize <= |s| && !ok ==> sink.room == 0 || !Acknowledges(old(replies.Rest()))
  {
    hide SmallBytes, Acknowledges, Fnv.Hash;
    ok, total := SendSmallFile(s, sink, rel, meta, luck);
    if ok {
      ok := WaitForAck(replies);
    }
  }

  lemma BeginFits(rel: text, total: u64, meta: Meta)
    requires |rel| <= MAX_NET_PATH
    ensures var f := BeginFrame(rel, total, meta);
      && WellFormed(f) && ValidHeader(f.header) && f.header.pathLen == |rel| && f.header.msgType == MSG_FILE_BEGIN
      && f.payload == rel
      && f.header.mode == meta.mode && f.header.totalHash == total
  {
  }

  /** A message that ends the loop, with what follows it, is the job. */
  lemma JobOfFrame(root: text, f: Frame, input: text, last: text)
    requires ValidHeader(f.header) && |f.payload| == f.header.pathLen
    requires f.header.msgType != MSG_EXIT && f.header.msgType != MSG_HELLO && f.header.msgType != MSG_QUERY_OFFSET
    ensures NextJob(root, EncodeFrame(f) + input, last) == JobOf(f.header, f.payload, input, last)
  {
    hide EncodeHeader, FrontHeader, JobOf, PathFits, CString;
    var s := EncodeFrame(f) + input;
    assert s == EncodeHeader(f.header) + (f.payload + input);
    FrontOfEncoded(f.header, f.payload + input);
    var n := HEADER_SIZE + f.header.pathLen;
    assert s[HEADER_SIZE..n] == f.payload && s[n..] == input;
  }

  /** A small upload cut anywhere as the server takes it. */
  lemma SmallJob(root: text, rel: text, s: text, total: u64, meta: Meta, cut: nat)
    requires NulFree(rel) && |rel| <= MAX_NET_PATH && cut <= |SmallBytes(rel, s, total, meta)|
    ensures var begin := BeginFrame(rel, total, meta); var n := |EncodeFrame(begin)|;
      NextJob(root, SmallBytes(rel, s, total, meta)[..cut], []) ==
        if cut < n then Idle else Begin(begin.header, rel, SmallData(s, total, meta)[..cut - n])
  {
    hide EncodeFrame, CString, SmallData;
    BeginFits(rel, total, meta);
    CStringOfNulFree(rel, []);
    var begin, data := BeginFrame(rel, total, meta), SmallData(s, total, meta);
    var n, all := |EncodeFrame(begin)|, SmallBytes(rel, s, total, meta);
    if cut < n {
      assert all[..cut] == EncodeFrame(begin)[..cut];
      NoJobYet(root, begin, cut, []);
    } else {
      assert all[..cut] == EncodeFrame(begin) + data[..cut - n];
      JobOfFrame(root, begin, data[..cut - n], []);
    }
  }

  lemma SmallBlockFits(s: text, total: u64, meta: Meta)
    ensures var f := SmallBlock(s, total, meta);
      && WellFormed(f) && ValidHeader(f.header) && Writable(f.header)
      && f.header.msgType == MSG_FILE_BLOCK && f.header.pathLen == 0 && f.header.offset == 0
      && f.header.dataLen == |f.payload| && f.header.blockHash == Fnv.Hash(f.payload)
      && f.payload == SmallPayload(s, meta)
  {
    hide Fnv.Hash;
  }

  /** The file is not shorter than the task says, and its block is empty for want of data only and not too large. */
  predicate Takeable(s: text, meta: Meta) {
    meta.fileSize <= |s| && (meta.fileSize == 0 || 0 < meta.fileSize % U32 <= MAX_BLOCK)
  }

  /** The data, cut anywhere, arrives with its end exactly if nothing is missing and its block can be taken. */
  lemma SmallReceived(s: text, total: u64, meta: Meta, cut: nat)
    requires cut <= |SmallData(s, total, meta)|
    ensures var u := Receive(SmallData(s, total, meta)[..cut], total);
      if cut == |SmallData(s, total, meta)| && Takeable(s, meta)
      then u == Upload(if meta.fileSize == 0 then []
        else [Block(0, SmallPayload(s, meta))], Some(EndFrame(total, meta).header))
      else u.end == None
  {
    hide EncodeFrame, Receive, EndFrame, SmallBlock, Fnv.Hash, WellFormed, ValidHeader, Writable, InitHeader;
    var data, end, f := SmallData(s, total, meta), EncodeFrame(EndFrame(total, meta)), SmallBlock(s, total, meta);
    SmallBlockFits(s, total, meta);
    if meta.fileSize > |s| {
      NothingReceived(total);
    } else if meta.fileSize == 0 {
      assert data == end;
      ReceiveEnd(total, meta, cut, total);
    } else if cut < |EncodeFrame(f)| {
      assert data[..cut] == EncodeFrame(f)[..cut];
      ReceivePartOfBlock(f, cut, total);
    } else {
      var rest := cut - |EncodeFrame(f)|;
      assert data[..cut] == EncodeFrame(f) + end[..rest];
      if 0 < |f.payload| <= MAX_BLOCK {
        ReceiveEnd(total, meta, rest, total);
        ReceiveBlock(f, end[..rest], total);
        assert [Block(0, f.payload)] + [] == [Block(0, f.payload)];
      } else {
        RefusedBlock(f, end[..rest], total);
      }
    }
  }

  lemma NothingReceived(expected: u64)
    ensures Receive([], expected) == Upload([], None)
  {
    ShortFront([]);
  }

  /**
   * A small upload cut anywhere: it commits exactly if nothing is missing, the file is as long as
   * the task says or hashes to the same, its block can be taken, and nothing in the files is in the
   * way; what it commits is the source if the size is right, and saves what it replaces. Otherwise
   * the target stays. A source of more than 16 MiB is never what ends up at the target.
   */
  lemma SmallUpload(fs: Files, gs: Files, root: text, rel: text, s: text, total: u64, meta: Meta, cut: nat,
          stamp: text, ok: bool, clean: bool)
    requires Sendable(root, rel, s) && !IsDirMode(meta.mode) && (total == Fnv.Hash(s) || total == 0)
    requires cut <= |SmallBytes(rel, s, total, meta)|
    requires Handled(fs, gs, root, NextJob(root, SmallBytes(rel, s, total, meta)[..cut], []), stamp, ok, clean)
    ensures clean ==> (ok <==>
      && cut == |SmallBytes(rel, s, total, meta)| && Takeable(s, meta)
      && (total == 0 || Fnv.Hash(SmallPayload(s, meta)) == total)
      && Opens(fs, root, rel, stamp) && !IsDir(WithDirs(fs, Current(rel).Parent()), Current(rel).Target()))
    ensures ok ==>
      && Takeable(s, meta) && (total == 0 || Fnv.Hash(SmallPayload(s, meta)) == total)
      && (meta.fileSize == |s| <= MAX_BLOCK ==> SmallPayload(s, meta) == s)
      && Committed(fs, gs, Current(rel), Version(stamp, rel), SmallPayload(s, meta))
      && Get(gs, Current(rel).Target()) == Some(File(SmallPayload(s, meta))) && Current(rel).Temp() !in gs
      && (IsFile(fs, Current(rel).Target()) ==> Get(gs, Version(stamp, rel).Target()) == Get(fs, Current(rel).Target()))
    ensures !ok ==> TargetAsBefore(fs, gs, rel)
    ensures |s| > MAX_BLOCK ==> !ok || Get(gs, Current(rel).Target()) != Some(File(s))
  {
    hide Receive, EndFrame, SmallBytes, SmallData, BeginFrame, Spot.Target, Spot.Temp, Fnv.Hash, Uploaded, NextJob;
    hide Accepted, EncodeFrame, Opens, WithDirs, Committed;
    var begin := BeginFrame(rel, total, meta);
    var n := |EncodeFrame(begin)|;
    SmallJob(root, rel, s, total, meta, cut);
    SmallSize(rel, s, total, meta);
    BeginFits(rel, total, meta);
    PayloadOf(s, meta);
    if cut >= n {
      SmallReceived(s, total, meta, cut - n);
      FitsIsAccepted(root, rel);
      SmallEffect(fs, gs, root, rel, s, total, meta, Receive(SmallData(s, total, meta)[..cut - n], total), stamp, ok,
        clean);
    }
  }

  lemma SmallSize(rel: text, s: text, total: u64, meta: Meta)
    requires |rel| <= MAX_NET_PATH
    ensures |SmallBytes(rel, s, total, meta)| ==
      |EncodeFrame(BeginFrame(rel, total, meta))| + |SmallData(s, total, meta)|
  {
  }

  lemma PayloadOf(s: text, meta: Meta)
    ensures meta.fileSize == |s| <= MAX_BLOCK ==> SmallPayload(s, meta) == s
    ensures Takeable(s, meta) ==> |SmallPayload(s, meta)| <= MAX_BLOCK
  {
  }

  lemma SmallEffect(fs: Files, gs: Files, root: text, rel: text, s: text, total: u64, meta: Meta, u: Upload,
          stamp: text, ok: bool, clean: bool)
    requires Uploaded(fs, gs, root, rel, stamp, u, total, ok, clean) && Accepted(rel)
    requires u.end.None? || (Takeable(s, meta) &&
      u == Upload(if meta.fileSize == 0 then []
        else [Block(0, SmallPayload(s, meta))], Some(EndFrame(total, meta).header)))
    ensures clean ==> (ok <==>
      && u.end.Some? && (total == 0 || Fnv.Hash(SmallPayload(s, meta)) == total)
      && Opens(fs, root, rel, stamp) && !IsDir(WithDirs(fs, Current(rel).Parent()), Current(rel).Target()))
    ensures ok ==>
      && u.end.Some? && (total == 0 || Fnv.Hash(SmallPayload(s, meta)) == total)
      && Committed(fs, gs, Current(rel), Version(stamp, rel), SmallPayload(s, meta))
      && Get(gs, Current(rel).Target()) == Some(File(SmallPayload(s, meta))) && Current(rel).Temp() !in gs
      && (IsFile(fs, Current(rel).Target()) ==> Get(gs, Version(stamp, rel).Target()) == Get(fs, Current(rel).Target()))
    ensures !ok ==> TargetAsBefore(fs, gs, rel)
  {
    hide EndFrame, Opens, WithDirs, Spot.Target, Spot.Temp, Spot.Parent, Fnv.Hash, Assemble, Confined, CurrentPath;
    hide Accepted;
    EndHash(total, meta);
    NothingAssembled([]);
    OneBlock(SmallPayload(s, meta));
    if !ok {
      TargetLeft(fs, gs, rel, stamp);
    }
  }

  lemma EndHash(total: u64, meta: Meta)
    ensures EndFrame(total, meta).header.totalHash == total
  {
  }

  lemma OneBlock(data: text)
    ensures Assemble([], [Block(0, data)]) == data
  {
    AssembleNext([], [], Block(0, data));
    assert [] + [Block(0, data)] == [Block(0, data)];
    OverlayAtEnd([], data);
  }

  // ---- Deletes, renames and directories ---------------------------------------------------------------------------

  /** mode | S_IFDIR. */
  function DirMode(mode: u32): u32 { if mode / 0x4000 % 2 == 1 then mode else mode + 0x4000 }

  function DirFrame(rel: text, meta: Meta): Frame
    requires |rel| <= MAX_NET_PATH
  {
    Frame(InitHeader(MSG_FILE_BEGIN).(pathLen := |rel|, mode := DirMode(meta.mode), mtime := meta.mtime), rel)
  }

  lemma HighPart(k: nat, x: nat)
    ensures x < 0x1000 ==> (0x1000 * k + x) / 0x1000 == k
    ensures x < 0x4000 ==> (0x4000 * k + x) / 0x4000 == k
  {
  }

  lemma LowPart(q: nat, r: nat)
    ensures r < 0x10 ==> (0x10 * q + r) % 0x10 == r
    ensures (4 * q + r) % 2 == r % 2
  {
  }

  lemma TypeBits(q: nat, r: nat, low: nat)
    requires r < 0x10 && low < 0x1000
    ensures var mode := 0x10000 * q + 0x1000 * r + low; mode / 0x1000 % 0x10 == r && mode / 0x4000 % 2 == r / 4 % 2
  {
    var h := r / 4;
    HighPart(0x10 * q + r, low);
    HighPart(4 * q + h, 0x1000 * (r - 4 * h) + low);
    LowPart(q, r);
    LowPart(q, h);
  }

  /** The server takes it for a directory exactly if the mode had no other type. */
  lemma DirModeIff(mode: u32)
    ensures IsDirMode(DirMode(mode)) <==> mode / 0x1000 % 0x10 in {0, 4}
  {
    var q, r, low := mode / 0x10000, mode / 0x1000 % 0x10, mode % 0x1000;
    assert mode == 0x10000 * q + 0x1000 * r + low;
    TypeBits(q, r, low);
    if mode / 0x4000 % 2 == 0 {
      TypeBits(q, r + 4, low);
    }
  }

  function DeleteFrame(rel: text): Frame
    requires |rel| <= MAX_NET_PATH
  {
    Frame(InitHeader(MSG_FILE_DELETE).(pathLen := |rel|), rel)
  }

  function RenameFrame(payload: text): Frame
    requires |payload| <= MAX_NET_PATH
  {
    Frame(InitHeader(MSG_FILE_RENAME).(pathLen := |payload|), payload)
  }

  /** send_remote_dir_create. */
  method SendRemoteDirCreate(sink: Sink, replies: Source, rel: text, meta: Meta) returns (ok: bool)
    requires replies.Valid() && sink.sent == [] && |rel| <= MAX_NET_PATH
    modifies sink, replies
    ensures sink.sent <= EncodeFrame(DirFrame(rel, meta)) && (ok ==> sink.sent == EncodeFrame(DirFrame(rel, meta)))
    ensures ok <==> |EncodeFrame(DirFrame(rel, meta))| <= old(sink.room) && Acknowledges(old(replies.Rest()))
  {
    hide EncodeFrame, Acknowledges;
    ok := SendFrame(sink, DirFrame(rel, meta));
    if ok {
      ok := WaitForAck(replies);
    }
  }

  /** A directory is begun once its path is whole. */
  lemma DirArrives(root: text, rel: text, meta: Meta, cut: nat)
    requires NulFree(rel) && |rel| <= MAX_NET_PATH && cut <= |EncodeFrame(DirFrame(rel, meta))|
    ensures NextJob(root, EncodeFrame(DirFrame(rel, meta))[..cut], []) ==
      if cut == |EncodeFrame(DirFrame(rel, meta))| then Begin(DirFrame(rel, meta).header, rel, []) else Idle
  {
    hide EncodeFrame, CString, DirMode;
    var f := DirFrame(rel, meta);
    if cut == |EncodeFrame(f)| {
      CStringOfNulFree(rel, []);
      JobOfFrame(root, f, [], []);
      assert EncodeFrame(f)[..cut] == EncodeFrame(f) + [] == EncodeFrame(f);
    } else {
      NoJobYet(root, f, cut, []);
    }
  }

  /** send_header_with_path for a delete. */
  method SendDelete(sink: Sink, rel: text) returns (ok: bool)
    requires sink.sent == []
    modifies sink
    ensures |rel| > MAX_NET_PATH ==> !ok && sink.sent == []
    ensures |rel| <= MAX_NET_PATH ==>
      && sink.sent <= EncodeFrame(DeleteFrame(rel)) && (ok ==> sink.sent == EncodeFrame(DeleteFrame(rel)))
      && (ok <==> |EncodeFrame(DeleteFrame(rel))| <= old(sink.room))
  {
    hide EncodeFrame;
    if |rel| > MAX_NET_PATH {
      return false;
    }
    ok := SendFrame(sink, DeleteFrame(rel));
  }

  /** send_remote_delete. */
  method SendRemoteDelete(sink: Sink, replies: Source, rel: text) returns (ok: bool)
    requires replies.Valid() && sink.sent == []
    modifies sink, replies
    ensures |rel| > MAX_NET_PATH ==> !ok && sink.sent == []
    ensures |rel| <= MAX_NET_PATH ==>
      && sink.sent <= EncodeFrame(DeleteFrame(rel)) && (ok ==> sink.sent == EncodeFrame(DeleteFrame(rel)))
      && (ok <==> |EncodeFrame(DeleteFrame(rel))| <= old(sink.room) && Acknowledges(old(replies.Rest())))
  {
    hide EncodeFrame, Acknowledges;
    ok := SendDelete(sink, rel);
    if ok {
      ok := WaitForAck(replies);
    }
  }

  /** send_remote_rename. */
  method SendRemoteRename(sink: Sink, replies: Source, oldRel: text, newRel: text) returns (ok: bool)
    requires replies.Valid() && sink.sent == []
    modifies sink, replies
    ensures match PackRename(oldRel, newRel)
      case None => !ok && sink.sent == []
      case Some(payload) =>
        && sink.sent <= EncodeFrame(RenameFrame(payload)) && (ok ==> sink.sent == EncodeFrame(RenameFrame(payload)))
        && (ok <==> |EncodeFrame(RenameFrame(payload))| <= old(sink.room) && Acknowledges(old(replies.Rest())))
  {
    hide EncodeFrame, Acknowledges;
    var payload := PackRename(oldRel, newRel);
    if payload.None? {
      return false;
    }
    ok := SendFrame(sink, RenameFrame(payload.value));
    if ok {
      ok := WaitForAck(replies);
    }
  }

  /**
   * Sent whole, a rename makes the server rename exactly the path the client meant to the other; cut
   * anywhere, it asks for nothing.
   */
  lemma RenameArrives(root: text, oldRel: text, newRel: text, cut: nat)
    requires NulFree(oldRel) && NulFree(newRel) && oldRel != [] && newRel != []
    requires |oldRel| + 1 + |newRel| <= MAX_NET_PATH
    requires cut <= |EncodeFrame(RenameFrame(oldRel + [NUL] + newRel))|
    ensures PackRename(oldRel, newRel) == Some(oldRel + [0] + newRel)
    ensures var job := NextJob(root, EncodeFrame(RenameFrame(oldRel + [NUL] + newRel))[..cut], []);
      if cut < |EncodeFrame(RenameFrame(oldRel + [NUL] + newRel))| then job == Idle
      else job.Move? && SplitRename(job.payload) == Some((oldRel, newRel))
  {
    hide EncodeFrame, SplitRename;
    SplitOfPacked(oldRel, newRel);
    var f := RenameFrame(oldRel + [NUL] + newRel);
    if cut == |EncodeFrame(f)| {
      JobOfFrame(root, f, [], []);
      assert EncodeFrame(f)[..cut] == EncodeFrame(f) + [] == EncodeFrame(f);
    } else {
      NoJobYet(root, f, cut, []);
    }
  }

  /** A delete asks for just that once it is whole, and for nothing before. */
  lemma DeleteArrives(root: text, rel: text, cut: nat)
    requires NulFree(rel) && |rel| <= MAX_NET_PATH && cut <= |EncodeFrame(DeleteFrame(rel))|
    ensures NextJob(root, EncodeFrame(DeleteFrame(rel))[..cut], []) ==
      if cut == |EncodeFrame(DeleteFrame(rel))| then Delete(rel) else Idle
  {
    hide EncodeFrame, CString;
    var f := DeleteFrame(rel);
    if cut == |EncodeFrame(f)| {
      CStringOfNulFree(rel, []);
      JobOfFrame(root, f, [], []);
      assert EncodeFrame(f)[..cut] == EncodeFrame(f) + [] == EncodeFrame(f);
    } else {
      NoJobYet(root, f, cut, []);
    }
  }

  // ---- What the messages look like ---------------------------------------------------------------------------

  /** The requests, byte by byte. */
  lemma RequestsOnTheWire(rel: text, oldRel: text, total: u64, meta: Meta)
    requires |rel| <= 512 && |oldRel| + 1 + |rel| <= 512
    ensures EncodeFrame(BeginFrame(rel, total, meta)) ==
      Image(2, |rel|, meta.fileSize, 0, 0, meta.mode, meta.mtime, total, 0) + rel
    ensures EncodeFrame(DirFrame(rel, meta)) == Image(2, |rel|, 0, 0, 0, DirMode(meta.mode), meta.mtime, 0, 0) + rel
    ensures EncodeFrame(DeleteFrame(rel)) == Image(5, |rel|, 0, 0, 0, 0, 0, 0, 0) + rel
    ensures EncodeFrame(RenameFrame(oldRel + [0] + rel)) ==
      Image(6, |oldRel| + 1 + |rel|, 0, 0, 0, 0, 0, 0, 0) + (oldRel + [0] + rel)
    ensures EncodeFrame(QueryFrame(rel)) == Image(7, |rel|, 0, 0, 0, 0, 0, 0, 0) + rel
  {
    hide EncodeHeader, Image, DirMode;
    HeaderImage(BeginFrame(rel, total, meta).header);
    HeaderImage(DirFrame(rel, meta).header);
    HeaderImage(DeleteFrame(rel).header);
    HeaderImage(RenameFrame(oldRel + [0] + rel).header);
    HeaderImage(QueryFrame(rel).header);
  }

  /** The data: each block carries its own length, place and hash, and all the size and hash of the whole. */
  lemma DataOnTheWire(s: text, pos: nat, n: nat, total: u64, meta: Meta)
    requires 0 < n < U32 && pos + n <= |s| <= MAX_OFFSET
    ensures EncodeFrame(BlockFrame(s, pos, n, total, meta)) ==
      Image(3, 0, meta.fileSize, pos, n, meta.mode, meta.mtime, total, Fnv.Hash(s[pos..pos + n])) + s[pos..pos + n]
    ensures var data := SmallPayload(s, meta);
      EncodeFrame(SmallBlock(s, total, meta)) ==
      Image(3, 0, meta.fileSize, 0, |data|, meta.mode, meta.mtime, total, Fnv.Hash(data)) + data
    ensures EncodeFrame(EndFrame(total, meta)) ==
      Image(4, 0, meta.fileSize, meta.fileSize, 0, meta.mode, meta.mtime, total, 0)
  {
    hide EncodeHeader, Image, Fnv.Hash, SmallPayload;
    HeaderImage(BlockFrame(s, pos, n, total, meta).header);
    HeaderImage(SmallBlock(s, total, meta).header);
    HeaderImage(EndFrame(total, meta).header);
  }

  /** The replies, and what the client makes of their types. */
  lemma RepliesOnTheWire(x: u64, m: text, bytes: text, h: Header, rel: text)
    requires |m| <= 512
    ensures EncodeHeader(AckHeader(x)) == Image(9, 0, 0, x, 0, 0, 0, 0, 0)
    ensures EncodeHeader(OffsetHeader(x)) == Image(8, 0, 0, x, 0, 0, 0, 0, 0)
    ensures EncodeHeader(ErrorHeader(m)) == Image(10, |m|, 0, 0, 0, 0, 0, 0, 0)
    ensures Acknowledges(bytes) <==> FrontHeader(bytes).Some? && FrontHeader(bytes).value.msgType in {8, 9}
    ensures OffersOffset(bytes) <==> FrontHeader(bytes).Some? && FrontHeader(bytes).value.msgType == 8
    ensures AckOffset(Blocks(h, rel, bytes)) == h.fileSize && AckOffset(Delete(rel)) == AckOffset(Move(rel)) == 0
    ensures AckOffset(Begin(h, rel, bytes)) == if h.mode / 0x1000 % 0x10 == 4 then 0 else h.fileSize
  {
    hide EncodeHeader, Image, FrontHeader;
    HeaderImage(AckHeader(x));
    HeaderImage(OffsetHeader(x));
    HeaderImage(ErrorHeader(m));
  }

  /**
   * A HELLO is skipped, and a message of any other type than that of a request, EXIT among them, asks
   * for nothing.
   */
  lemma OtherMessages(root: text, t: u32, rest: text, last: text)
    ensures NextJob(root, Image(1, 0, 0, 0, 0, 0, 0, 0, 0) + rest, last) == NextJob(root, rest, last)
    ensures t !in {1, 2, 3, 5, 6, 7} ==> NextJob(root, Image(t, 0, 0, 0, 0, 0, 0, 0, 0) + rest, last) == Idle
  {
    hide EncodeHeader, Image, FrontHeader, PathFits, CString;
    var hello, other := InitHeader(MSG_HELLO), InitHeader(t);
    HeaderImage(hello);
    HeaderImage(other);
    FrontOfEncoded(hello, rest);
    FrontOfEncoded(other, rest);
    assert (EncodeHeader(hello) + rest)[HEADER_SIZE..] == rest;
  }
}
