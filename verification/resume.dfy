/** Large files across interrupted sessions: the client of src/transfer.c against the server. */
module Resume {
  import opened Bytes
  import opened Io
  import opened Wire
  import opened Paths
  import opened FileTree
  import opened Store
  import opened Server
  import opened Connection
  import Fnv
  import Gates

  // ---- What the client sends --------------------------------------------------------------------------------

  /** What a task says about its file besides the content. */
  datatype Meta = Meta(fileSize: u64, mode: u32, mtime: u64)

  function Sum(ns: seq<nat>): nat { if ns == [] then 0 else ns[0] + Sum(ns[1..]) }

  /** Reads of these sizes, each representable in the length field of a block, from `pos` on. */
  ghost predicate Chunked(s: text, pos: nat, ns: seq<nat>) {
    && |s| <= MAX_OFFSET && (ns != [] ==> pos + Sum(ns) <= |s|)
    && forall n :: n in ns ==> 0 < n < U32
  }

  function Later(ns: seq<nat>): seq<nat> { if ns == [] then [] else ns[1..] }

  /** Sizes the server takes for a block that is not the first of its stream. */
  ghost predicate Acceptable(ns: seq<nat>) { forall n :: n in ns ==> n <= MAX_BLOCK }

  lemma AcceptableNext(ns: seq<nat>)
    requires ns != []
    ensures Acceptable(ns) <==> ns[0] <= MAX_BLOCK && Acceptable(ns[1..])
  {
    assert ns == [ns[0]] + ns[1..];
    assert ns[0] in ns && forall n :: n in ns[1..] ==> n in ns;
  }

  lemma ChunkedNext(s: text, pos: nat, ns: seq<nat>)
    requires Chunked(s, pos, ns) && ns != []
    ensures 0 < ns[0] < U32 && pos + ns[0] <= |s| && Chunked(s, pos + ns[0], ns[1..])
  {
    assert ns[0] in ns && forall n :: n in ns[1..] ==> n in ns;
  }

  /** send_file_block. */
  function BlockFrame(s: text, pos: nat, n: nat, total: u64, meta: Meta): Frame
    requires 0 < n < U32 && pos + n <= |s| <= MAX_OFFSET
  {
    var data := s[pos..pos + n];
    Frame(InitHeader(MSG_FILE_BLOCK).(fileSize := meta.fileSize, offset := pos, dataLen := n, mode := meta.mode,
          mtime := meta.mtime, totalHash := total, blockHash := Fnv.Hash(data)), data)
  }

  /** send_file_end. */
  function EndFrame(total: u64, meta: Meta): Frame {
    Frame(InitHeader(MSG_FILE_END).(fileSize := meta.fileSize, offset := meta.fileSize, mode := meta.mode,
          mtime := meta.mtime, totalHash := total), [])
  }

  function QueryFrame(rel: text): Frame
    requires |rel| <= MAX_NET_PATH
  {
    Frame(InitHeader(MSG_QUERY_OFFSET).(pathLen := |rel|), rel)
  }

  /** The blocks of `s` from `pos` on in chunks of the sizes `ns`, then the end. */
  ghost function DataFrames(s: text, pos: nat, ns: seq<nat>, total: u64, meta: Meta): seq<Frame>
    requires Chunked(s, pos, ns)
    decreases ns
  {
    if ns == [] then [EndFrame(total, meta)]
    else
      ChunkedNext(s, pos, ns);
      [BlockFrame(s, pos, ns[0], total, meta)] + DataFrames(s, pos + ns[0], ns[1..], total, meta)
  }

  /** The same blocks as the server takes them. */
  ghost function BlocksOf(s: text, pos: nat, ns: seq<nat>): (r: seq<Block>)
    requires Chunked(s, pos, ns)
    ensures |r| == |ns|
    decreases ns
  {
    if ns == [] then []
    else
      ChunkedNext(s, pos, ns);
      [Block(pos, s[pos..pos + ns[0]])] + BlocksOf(s, pos + ns[0], ns[1..])
  }

  // ---- What the server makes of it ------------------------------------------------------------------------------

  lemma ReceiveBlock(f: Frame, rest: text, expected: u64)
    requires WellFormed(f) && f.header.msgType == MSG_FILE_BLOCK && f.header.pathLen == 0
    requires 0 < f.header.dataLen <= 16 * 1024 * 1024 && f.header.blockHash == Fnv.Hash(f.payload) && Writable(f.header)
    ensures Receive(EncodeFrame(f) + rest, expected) ==
      Upload([Block(f.header.offset, f.payload)] + Receive(rest, expected).blocks, Receive(rest, expected).end)
  {
    hide EncodeHeader, FrontHeader, Fnv.Hash;
    var s := EncodeFrame(f) + rest;
    assert s == EncodeHeader(f.header) + (f.payload + rest);
    FrontOfEncoded(f.header, f.payload + rest);
    var n := HEADER_SIZE + f.header.dataLen;
    assert s[HEADER_SIZE..n] == f.payload && s[n..] == rest;
  }

  lemma ReceivePartOfBlock(f: Frame, cut: nat, expected: u64)
    requires WellFormed(f) && f.header.msgType == MSG_FILE_BLOCK && f.header.pathLen == 0 && cut < |EncodeFrame(f)|
    ensures Receive(EncodeFrame(f)[..cut], expected) == Upload([], None)
  {
    hide EncodeHeader, FrontHeader, Fnv.Hash;
    if cut >= HEADER_SIZE {
      var rest := f.payload[..cut - HEADER_SIZE];
      assert EncodeFrame(f)[..cut] == EncodeHeader(f.header) + rest;
      FrontOfEncoded(f.header, rest);
    } else {
      ShortFront(EncodeFrame(f)[..cut]);
    }
  }

  lemma ShortFront(s: text)
    requires |s| < HEADER_SIZE
    ensures FrontHeader(s) == None
  {
  }

  lemma ReceiveEnd(total: u64, meta: Meta, cut: nat, expected: u64)
    requires expected == 0 || expected == total
    requires cut <= |EncodeFrame(EndFrame(total, meta))|
    ensures Receive(EncodeFrame(EndFrame(total, meta))[..cut], expected) ==
      Upload([], if cut == |EncodeFrame(EndFrame(total, meta))| then Some(EndFrame(total, meta).header) else None)
  {
    hide EncodeHeader, FrontHeader;
    var h := EndFrame(total, meta).header;
    if cut == HEADER_SIZE {
      FrontOfEncoded(h, []);
      assert EncodeFrame(EndFrame(total, meta))[..cut] == EncodeHeader(h) + [];
    } else {
      ShortFront(EncodeFrame(EndFrame(total, meta))[..cut]);
    }
  }

  /** A block frame of a size the server does not take arrives as nothing. */
  lemma RefusedBlock(f: Frame, rest: text, expected: u64)
    requires ValidHeader(f.header) && f.header.msgType == MSG_FILE_BLOCK
    requires f.header.dataLen == 0 || f.header.dataLen > 16 * 1024 * 1024
    ensures Receive(EncodeFrame(f) + rest, expected) == Upload([], None)
  {
    hide EncodeHeader, FrontHeader;
    assert EncodeFrame(f) + rest == EncodeHeader(f.header) + (f.payload + rest);
    FrontOfEncoded(f.header, f.payload + rest);
  }

  /**
   * A block stream cut anywhere arrives as its first complete blocks up to one that is too large,
   * and with its end exactly if it is not cut and no block is too large.
   */
  lemma {:induction false} ReceiveOfCut(s: text, pos: nat, ns: seq<nat>, total: u64, meta: Meta, cut: nat,
          expected: u64)
    returns (m: nat)
    requires expected == 0 || expected == total
    requires Chunked(s, pos, ns) && cut <= |EncodeFrames(DataFrames(s, pos, ns, total, meta))|
    ensures var all := EncodeFrames(DataFrames(s, pos, ns, total, meta)); var u := Receive(all[..cut], expected);
      && m <= |ns| && u.blocks == BlocksOf(s, pos, ns)[..m]
      && if cut == |all| && Acceptable(ns) then m == |ns| && u.end == Some(EndFrame(total, meta).header)
        else u.end == None
    decreases ns
  {
    hide EncodeFrame, Receive, Fnv.Hash, WellFormed, InitHeader, Acceptable;
    var fs := DataFrames(s, pos, ns, total, meta);
    var all := EncodeFrames(fs);
    if ns == [] {
      m := 0;
      NothingTooLarge();
      assert fs[1..] == [] && all == EncodeFrame(fs[0]) + [] == EncodeFrame(fs[0]);
      ReceiveEnd(total, meta, cut, expected);
    } else {
      ChunkedNext(s, pos, ns);
      var f, later := fs[0], DataFrames(s, pos + ns[0], ns[1..], total, meta);
      assert fs[1..] == later;
      BlockFrameFits(s, pos, ns[0], total, meta);
      AcceptableNext(ns);
      var n := |EncodeFrame(f)|;
      if cut < n {
        m := 0;
        assert all[..cut] == EncodeFrame(f)[..cut];
        ReceivePartOfBlock(f, cut, expected);
      } else if ns[0] > MAX_BLOCK {
        m := 0;
        assert all[..cut] == EncodeFrame(f) + EncodeFrames(later)[..cut - n];
        RefusedBlock(f, EncodeFrames(later)[..cut - n], expected);
      } else {
        var rest := EncodeFrames(later)[..cut - n];
        assert all[..cut] == EncodeFrame(f) + rest;
        ReceiveBlock(f, rest, expected);
        var k := ReceiveOfCut(s, pos + ns[0], ns[1..], total, meta, cut - n, expected);
        m := k + 1;
        FirstBlocks(s, pos, ns, k);
      }
    }
  }

  lemma NothingTooLarge()
    ensures Acceptable([])
  {
  }

  lemma FirstBlocks(s: text, pos: nat, ns: seq<nat>, k: nat)
    requires Chunked(s, pos, ns) && ns != [] && k < |ns|
    ensures Chunked(s, pos + ns[0], ns[1..]) && pos + ns[0] <= |s|
    ensures BlocksOf(s, pos, ns)[..k + 1] == [Block(pos, s[pos..pos + ns[0]])] + BlocksOf(s, pos + ns[0], ns[1..])[..k]
  {
    ChunkedNext(s, pos, ns);
  }

  lemma BlockFrameFits(s: text, pos: nat, n: nat, total: u64, meta: Meta)
    requires 0 < n < U32 && pos + n <= |s| <= MAX_OFFSET
    ensures var f := BlockFrame(s, pos, n, total, meta);
      && WellFormed(f) && ValidHeader(f.header) && f.header.msgType == MSG_FILE_BLOCK && f.header.pathLen == 0
      && f.header.dataLen == n
      && f.header.offset == pos && f.header.totalHash == total
      && f.header.blockHash == Fnv.Hash(f.payload) && Writable(f.header) && f.payload == s[pos..pos + n]
  {
    hide Fnv.Hash;
  }

  // ---- One session on the wire ------------------------------------------------------------------------------------

  /** Everything send_remote_large_file sends: the query, the blocks from the reply's offset on, the end. */
  ghost function SessionBytes(rel: text, s: text, pos: nat, ns: seq<nat>, total: u64, meta: Meta): text
    requires |rel| <= MAX_NET_PATH && Chunked(s, pos, ns)
  {
    EncodeFrame(QueryFrame(rel)) + EncodeFrames(DataFrames(s, pos, ns, total, meta))
  }

  lemma ReceiveFromCut(s: text, pos: nat, ns: seq<nat>, total: u64, meta: Meta, cut: nat) returns (m: nat)
    requires Chunked(s, pos, ns) && ns != []
    requires pos + ns[0] <= |s| && 0 < ns[0] < U32 && Chunked(s, pos + ns[0], ns[1..])
    requires var later := EncodeFrames(DataFrames(s, pos + ns[0], ns[1..], total, meta));
      cut <= |s[pos..pos + ns[0]] + later|
    ensures var f := BlockFrame(s, pos, ns[0], total, meta);
      var input := f.payload + EncodeFrames(DataFrames(s, pos + ns[0], ns[1..], total, meta));
      var u := ReceiveFrom(f.header, input[..cut]);
      && m <= |ns| && u.blocks == BlocksOf(s, pos, ns)[..m] && (cut >= ns[0] ==> m > 0)
      && if cut == |input| && Acceptable(ns[1..]) then m == |ns| && u.end == Some(EndFrame(total, meta).header)
        else u.end == None
  {
    hide EncodeFrames, Receive, Fnv.Hash, InitHeader, DataFrames, Acceptable;
    var f, n := BlockFrame(s, pos, ns[0], total, meta), ns[0];
    BlockFrameFits(s, pos, n, total, meta);
    var later := EncodeFrames(DataFrames(s, pos + n, ns[1..], total, meta));
    var input := f.payload + later;
    if cut < n {
      m := 0;
    } else {
      var k := ReceiveOfCut(s, pos + n, ns[1..], total, meta, cut - n, 0);
      assert input[..cut][..n] == f.payload && input[..cut][n..] == later[..cut - n];
      m := k + 1;
      FirstBlocks(s, pos, ns, k);
    }
  }

  lemma NoJobYet(root: text, f: Frame, cut: nat, last: text)
    requires WellFormed(f) && f.header.msgType != MSG_FILE_BLOCK && cut < |EncodeFrame(f)|
    ensures NextJob(root, EncodeFrame(f)[..cut], last) == Idle
  {
    hide EncodeHeader, FrontHeader, JobOf, PathFits, CString;
    if cut >= HEADER_SIZE {
      var rest := f.payload[..cut - HEADER_SIZE];
      assert EncodeFrame(f)[..cut] == EncodeHeader(f.header) + rest;
      FrontOfEncoded(f.header, rest);
    } else {
      ShortFront(EncodeFrame(f)[..cut]);
    }
  }

  lemma JobOfHeader(root: text, h: Header, input: text, last: text)
    requires ValidHeader(h) && h.pathLen == 0 && h.msgType != MSG_EXIT && h.msgType != MSG_HELLO
    requires h.msgType != MSG_QUERY_OFFSET
    ensures NextJob(root, EncodeHeader(h) + input, last) == JobOf(h, [], input, last)
  {
    hide EncodeHeader, FrontHeader, JobOf, PathFits, CString;
    FrontOfEncoded(h, input);
    var s := EncodeHeader(h) + input;
    assert s[HEADER_SIZE..HEADER_SIZE] == [];
  }

  lemma NoJob(root: text, s: text, last: text)
    requires |s| < HEADER_SIZE
    ensures NextJob(root, s, last) == Idle
  {
    ShortFront(s);
  }

  /** The query and all of the first block. */
  ghost predicate FirstArrives(rel: text, ns: seq<nat>, cut: nat)
    requires |rel| <= MAX_NET_PATH
  {
    ns != [] && cut >= |EncodeFrame(QueryFrame(rel))| + HEADER_SIZE + ns[0]
  }

  /** The stream behind the query, cut anywhere behind its first header, asks for its first complete blocks. */
  lemma StreamJob(root: text, rel: text, s: text, pos: nat, ns: seq<nat>, total: u64, meta: Meta, cut: nat)
    returns (m: nat)
    requires Chunked(s, pos, ns) && ns != [] && rel != []
    requires HEADER_SIZE <= cut <= |EncodeFrames(DataFrames(s, pos, ns, total, meta))|
    ensures var all := EncodeFrames(DataFrames(s, pos, ns, total, meta)); var job := NextJob(root, all[..cut], rel);
      && job.Blocks? && job.rel == rel && job.header.totalHash == total
      && m <= |ns| && ReceiveFrom(job.header, job.input).blocks == BlocksOf(s, pos, ns)[..m]
      && (cut >= HEADER_SIZE + ns[0] ==> m > 0)
      && if cut == |all| && Acceptable(ns[1..])
         then m == |ns| && ReceiveFrom(job.header, job.input).end == Some(EndFrame(total, meta).header)
         else ReceiveFrom(job.header, job.input).end == None
  {
    hide EncodeHeader, Receive, ReceiveFrom, NextJob, Fnv.Hash, InitHeader, ValidHeader, Acceptable, BlocksOf;
    var frames := DataFrames(s, pos, ns, total, meta);
    ChunkedNext(s, pos, ns);
    BlockFrameFits(s, pos, ns[0], total, meta);
    var f, later := frames[0], EncodeFrames(frames[1..]);
    assert frames[1..] == DataFrames(s, pos + ns[0], ns[1..], total, meta);
    var input := (f.payload + later)[..cut - HEADER_SIZE];
    assert EncodeFrames(frames)[..cut] == EncodeHeader(f.header) + input;
    JobOfHeader(root, f.header, input, rel);
    m := ReceiveFromCut(s, pos, ns, total, meta, cut - HEADER_SIZE);
  }

  /**
   * What a session cut at any byte asks of the server: nothing, or its first complete blocks for
   * its path, with the end exactly if nothing is missing and no block but the first is too large.
   * With no block to send, there is never a job.
   */
  lemma SessionJob(root: text, rel: text, s: text, pos: nat, ns: seq<nat>, total: u64, meta: Meta, cut: nat)
    returns (m: nat)
    requires NulFree(rel) && |rel| <= MAX_NET_PATH && PathFits(root, rel) && Chunked(s, pos, ns)
    requires cut <= |SessionBytes(rel, s, pos, ns, total, meta)|
    ensures var all := SessionBytes(rel, s, pos, ns, total, meta); var job := NextJob(root, all[..cut], []);
      && (ns == [] ==> job == Idle)
      && (ns != [] && (cut == |all| || FirstArrives(rel, ns, cut)) ==> job.Blocks?)
      && (job != Idle ==>
        && job.Blocks? && job.rel == rel && job.header.totalHash == total
        && m <= |ns| && ReceiveFrom(job.header, job.input).blocks == BlocksOf(s, pos, ns)[..m]
        && ReceiveFrom(job.header, job.input).end ==
          (if cut == |all| && Acceptable(Later(ns)) then Some(EndFrame(total, meta).header) else None)
        && (cut == |all| && Acceptable(Later(ns)) ==> m == |ns|)
        && (FirstArrives(rel, ns, cut) ==> m > 0))
  {
    hide EncodeHeader, Receive, ReceiveFrom, NextJob, Fnv.Hash, InitHeader, PathFits, CString, ValidHeader, Accepted;
    hide Acceptable, BlocksOf, EncodeFrames;
    m := 0;
    var q, frames := QueryFrame(rel), DataFrames(s, pos, ns, total, meta);
    QueryFits(root, rel);
    FramesFillHeader(s, pos, ns, total, meta);
    var n, all := |EncodeFrame(q)|, SessionBytes(rel, s, pos, ns, total, meta);
    if cut < n {
      assert all[..cut] == EncodeFrame(q)[..cut];
      NoJobYet(root, q, cut, []);
    } else {
      var rest := EncodeFrames(frames)[..cut - n];
      assert all[..cut] == EncodeFrame(q) + rest;
      Gates.NextAfterPrelude(root, q, rest, []);
      if |rest| < HEADER_SIZE {
        NoJob(root, rest, rel);
      } else if ns == [] {
        OnlyTheEnd(root, rel, s, pos, total, meta, cut - n);
      } else {
        m := StreamJob(root, rel, s, pos, ns, total, meta, cut - n);
      }
    }
  }

  /** With no block to send, the stream is the end, which asks for nothing. */
  lemma OnlyTheEnd(root: text, rel: text, s: text, pos: nat, total: u64, meta: Meta, cut: nat)
    requires Chunked(s, pos, []) && HEADER_SIZE <= cut <= |EncodeFrames(DataFrames(s, pos, [], total, meta))|
    ensures NextJob(root, EncodeFrames(DataFrames(s, pos, [], total, meta))[..cut], rel) == Idle
  {
    hide EncodeHeader, NextJob, InitHeader, ValidHeader;
    var frames := DataFrames(s, pos, [], total, meta);
    EndFits(total, meta);
    assert frames[1..] == [];
    assert EncodeFrames(frames)[..cut] == EncodeHeader(frames[0].header) + [];
    JobOfHeader(root, frames[0].header, [], rel);
  }

  lemma QueryFits(root: text, rel: text)
    requires NulFree(rel) && |rel| <= MAX_NET_PATH && PathFits(root, rel)
    ensures var q := QueryFrame(rel);
      Gates.Prelude(root, q) && WellFormed(q) && q.header.msgType == MSG_QUERY_OFFSET && CString(q.payload) == rel &&
        rel != []
  {
    CStringOfNulFree(rel, []);
  }

  lemma EndFits(total: u64, meta: Meta)
    ensures WellFormed(EndFrame(total, meta)) && EndFrame(total, meta).header.pathLen == 0
    ensures ValidHeader(EndFrame(total, meta).header) && EndFrame(total, meta).header.msgType == MSG_FILE_END
  {
  }

  lemma FramesFillHeader(s: text, pos: nat, ns: seq<nat>, total: u64, meta: Meta)
    requires Chunked(s, pos, ns)
    ensures |EncodeFrames(DataFrames(s, pos, ns, total, meta))| >= HEADER_SIZE
  {
  }

  // ---- What gets staged -------------------------------------------------------------------------------------------

  lemma OverlayPiece(s: text, pos: nat, n: nat, k: nat)
    requires pos + n <= |s| && k <= n
    ensures Overlay(s[..pos], pos, s[pos..pos + n][..k]) == s[..pos + k]
  {
    OverlayAtEnd(s[..pos], s[pos..pos + n][..k]);
    assert s[pos..pos + n][..k] == s[pos..pos + k];
  }

  lemma PartlyFirst(c: text, b: Block, rest: seq<Block>, k: nat)
    ensures Partly(c, [b] + rest, 0, k) == Overlay(c, b.offset, b.data[..Min(k, |b.data|)])
    ensures Partly(c, [], 0, k) == c
  {
    hide Overlay;
    var blocks := [b] + rest;
    assert blocks[..0] == [] && blocks[0] == b;
  }

  /** Any part of the blocks, landing on the front of the source before them, gives a front of the source. */
  lemma {:induction false} PartlyIsPrefix(s: text, pos: nat, ns: seq<nat>, m: nat, n: nat, k: nat)
    requires Chunked(s, pos, ns) && pos <= |s| && m <= |ns| && n <= m
    ensures Partly(s[..pos], BlocksOf(s, pos, ns)[..m], n, k) <= s
    decreases m
  {
    hide Overlay, Partly, BlocksOf, Chunked, Sum;
    var c := s[..pos];
    if m == 0 {
      assert BlocksOf(s, pos, ns)[..0] == [];
      PartlyFirst(c, Block(0, []), [], k);
    } else {
      FirstBlocks(s, pos, ns, m - 1);
      ChunkedNext(s, pos, ns);
      var b, rest := Block(pos, s[pos..pos + ns[0]]), BlocksOf(s, pos + ns[0], ns[1..])[..m - 1];
      if n == 0 {
        PartlyFirst(c, b, rest, k);
        OverlayPiece(s, pos, ns[0], Min(k, ns[0]));
      } else {
        PartlyFront(c, b, rest, n - 1, k);
        OverlayPiece(s, pos, ns[0], ns[0]);
        assert b.data[..ns[0]] == b.data;
        PartlyIsPrefix(s, pos + ns[0], ns[1..], m - 1, n - 1, k);
      }
    }
  }

  /** Whatever is staged, the blocks from its end on continue it with the rest of the source. */
  lemma {:induction false} AssembleOnto(c: text, s: text, ns: seq<nat>)
    requires Chunked(s, |c|, ns) && |c| <= |s|
    ensures Assemble(c, BlocksOf(s, |c|, ns)) == c + s[|c|..|c| + Sum(ns)]
    decreases |ns|
  {
    hide Overlay;
    var pos := |c|;
    if ns == [] {
      NothingAssembled(c);
    } else {
      ChunkedNext(s, pos, ns);
      var b := Block(pos, s[pos..pos + ns[0]]);
      AssembleFront(c, b, BlocksOf(s, pos + ns[0], ns[1..]));
      OverlayAtEnd(c, b.data);
      AssembleOnto(c + b.data, s, ns[1..]);
      ConcatAssociative(c, b.data, s[pos + ns[0]..pos + Sum(ns)]);
      SliceJoin(s, pos, pos + ns[0], pos + Sum(ns));
    }
  }

  // ---- Sessions on the store --------------------------------------------------------------------------------------

  /** Nothing is staged for the path, or a front of the source. */
  ghost predicate StagedPrefix(fs: Files, rel: text, s: text) {
    var temp := Current(rel).Temp();
    temp !in fs || (fs[temp].File? && fs[temp].content <= s)
  }

  /** One try at sending the source: how it was cut into reads and where the connection died. */
  datatype Attempt = Attempt(ns: seq<nat>, cut: nat, total: u64, meta: Meta, stamp: text, heard: bool, ok: bool,
    clean: bool)

  ghost predicate Sendable(root: text, rel: text, s: text) {
    PathFits(root, rel) && NulFree(rel) && |rel| <= MAX_NET_PATH && |s| <= MAX_OFFSET
  }

  /**
   * One session: the client starts at the length of what is staged and would send everything from
   * there on, the connection passes `cut` bytes of that, and the server handles what arrives.
   */
  ghost predicate Session(fs: Files, gs: Files, root: text, rel: text, s: text, a: Attempt) {
    var pos := |Content(fs, Current(rel).Temp())|;
    && |rel| <= MAX_NET_PATH && Chunked(s, pos, a.ns) && pos + Sum(a.ns) >= |s|
    && a.cut <= |SessionBytes(rel, s, pos, a.ns, a.total, a.meta)|
    && if a.heard
      then Handled(fs, gs, root, NextJob(root, SessionBytes(rel, s, pos, a.ns, a.total, a.meta)[..a.cut], []), a.stamp,
      a.ok, a.clean)
       else gs == fs
  }

  /** What the target may be after a session: as before, a new directory, or the source. */
  ghost predicate TargetOk(fs: Files, gs: Files, rel: text, s: text) {
    var target := Current(rel).Target();
    Get(gs, target) == Get(fs, target) || (target !in fs && IsDir(gs, target)) || Get(gs, target) == Some(File(s))
  }

  lemma StreamOnStaged(fs: Files, gs: Files, root: text, rel: text, s: text, stamp: text, u: Upload, total: u64,
          ok: bool, clean: bool, ns: seq<nat>, m: nat)
    requires Streamed(fs, gs, root, rel, stamp, u, total, ok, clean) && StagedPrefix(fs, rel, s) && Accepted(rel)
    requires Chunked(s, |Content(fs, Current(rel).Temp())|, ns) && ns != [] && m <= |ns|
    requires u.blocks == BlocksOf(s, |Content(fs, Current(rel).Temp())|, ns)[..m]
    requires u.end.Some? ==> m == |ns| && |Content(fs, Current(rel).Temp())| + Sum(ns) == |s|
    ensures StagedPrefix(gs, rel, s) && TargetOk(fs, gs, rel, s)
    ensures ok ==> Committed(fs, gs, Current(rel), Version(stamp, rel), s)
    ensures ok ==> Get(gs, Current(rel).Target()) == Some(File(s)) && Current(rel).Temp() !in gs
  {
    hide Partly, Assemble, BlocksOf, Accepted, StreamWorks, Fnv.Hash, Spot.Target, Spot.Temp, Spot.Parent, Chunked;
    var at, c := Current(rel), Content(fs, Current(rel).Temp());
    assert c <= s && s[..|c|] == c;
    SpotParts(at);
    if ok {
      assert BlocksOf(s, |c|, ns)[..m] == BlocksOf(s, |c|, ns);
      AssembleOnto(c, s, ns);
      assert c + s[|c|..|s|] == s;
    } else {
      TargetLeft(fs, gs, rel, stamp);
      if Get(gs, at.Temp()) != Get(fs, at.Temp()) {
        var n: nat, k: nat :| n <= |u.blocks| && Get(gs, at.Temp()) == Some(File(Partly(c, u.blocks, n, k)));
        PartlyIsPrefix(s, |c|, ns, m, n, k);
      }
    }
  }

  lemma TargetLeft(fs: Files, gs: Files, rel: text, stamp: text)
    requires NotCommitted(fs, gs, Current(rel), Version(stamp, rel)) && Accepted(rel)
    ensures var target := Current(rel).Target();
      Get(gs, target) == Get(fs, target) || (target !in fs && IsDir(gs, target))
  {
    hide Accepted, Spot.Target, Spot.Temp, Spot.Parent;
    SpotParts(Current(rel));
    AreasDiffer(stamp, rel);
  }

  /**
   * Every session, cut anywhere and failing anyhow, keeps the staged file a front of the source; if
   * the server acknowledges, it has committed exactly the source.
   */
  lemma SessionKeepsPrefix(fs: Files, gs: Files, root: text, rel: text, s: text, a: Attempt)
    requires Sendable(root, rel, s) && StagedPrefix(fs, rel, s) && Session(fs, gs, root, rel, s, a)
    ensures StagedPrefix(gs, rel, s) && TargetOk(fs, gs, rel, s)
    ensures a.heard && a.ok ==> Committed(fs, gs, Current(rel), Version(a.stamp, rel), s)
    ensures a.heard && a.ok ==> Get(gs, Current(rel).Target()) == Some(File(s)) && Current(rel).Temp() !in gs
  {
    if a.heard {
      hide Streamed, SessionBytes, NextJob, ReceiveFrom, BlocksOf, EndFrame, Accepted, Spot.Target, Spot.Temp;
      hide Acceptable, Committed;
      var pos := |Content(fs, Current(rel).Temp())|;
      var m := SessionJob(root, rel, s, pos, a.ns, a.total, a.meta, a.cut);
      var job := NextJob(root, SessionBytes(rel, s, pos, a.ns, a.total, a.meta)[..a.cut], []);
      if job != Idle {
        StreamOnStaged(fs, gs, root, rel, s, a.stamp, ReceiveFrom(job.header, job.input), a.total, a.ok, a.clean, a.ns,
          m);
      }
    }
  }

  /** Where nothing is missing in what is staged, no session ever changes anything again. */
  lemma StaysStuck(fs: Files, gs: Files, root: text, rel: text, s: text, a: Attempt)
    requires Sendable(root, rel, s) && |Content(fs, Current(rel).Temp())| >= |s| && Session(fs, gs, root, rel, s, a)
    ensures gs == fs && (a.heard ==> !a.ok)
  {
    hide SessionBytes, NextJob, ReceiveFrom, BlocksOf, EndFrame, Accepted, Spot.Target, Spot.Temp, Acceptable, Resumed;
    var pos := |Content(fs, Current(rel).Temp())|;
    NothingToSend(a.ns);
    var _ := SessionJob(root, rel, s, pos, a.ns, a.total, a.meta, a.cut);
  }

  /** Over any number of sessions in a row, what is staged stays a front of the source. */
  lemma {:induction false} RunKeepsPrefix(states: seq<Files>, root: text, rel: text, s: text, attempts: seq<Attempt>)
    requires Sendable(root, rel, s) && |states| == |attempts| + 1 && StagedPrefix(states[0], rel, s)
    requires forall i :: 0 <= i < |attempts| ==> Session(states[i], states[i + 1], root, rel, s, attempts[i])
    ensures forall i :: 0 <= i < |states| ==> StagedPrefix(states[i], rel, s)
    ensures TargetKept(states[0], states[|states| - 1], rel, s)
    decreases |attempts|
  {
    hide Session, StagedPrefix;
    if attempts != [] {
      var n := |attempts| - 1;
      RunKeepsPrefix(states[..n + 1], root, rel, s, attempts[..n]);
      assert forall i :: 0 <= i <= n ==> states[..n + 1][i] == states[i];
      SessionKeepsPrefix(states[n], states[n + 1], root, rel, s, attempts[n]);
    }
  }

  /** The target file is what it was, or the source; where no file was, none but the source appears. */
  ghost predicate TargetKept(fs: Files, gs: Files, rel: text, s: text) {
    var target := Current(rel).Target();
    Get(gs, target) == Some(File(s)) ||
      (if IsFile(fs, target) then Get(gs, target) == Get(fs, target) else !IsFile(gs, target))
  }

  // ---- The session that finishes ----------------------------------------------------------------------------------

  /** No file blocks the way to the target and no directory takes its place. */
  ghost predicate WayClear(fs: Files, rel: text) {
    var at := Current(rel);
    && (forall k :: 0 <= k <= |at.Parent()| ==> !IsFile(fs, at.Parent()[..k]))
    && at.Target() != at.Parent() && !IsDir(fs, at.Target())
  }

  lemma ClearWayOpens(fs: Files, rel: text, s: text)
    requires Accepted(rel) && WayClear(fs, rel) && StagedPrefix(fs, rel, s) && Tree(fs)
    ensures StreamOpens(fs, rel) && !IsDir(WithDirs(fs, Current(rel).Parent()), Current(rel).Target())
  {
    hide Accepted, Basename, Dirname, WithDirs;
    var at := Current(rel);
    SpotParts(at);
    assert at.Temp()[..|at.Temp()| - 1] == at.Parent() && at.Parent()[..|at.Parent()|] == at.Parent();
    WithDirsAt(fs, at.Parent(), at.Temp());
    WithDirsAt(fs, at.Parent(), at.Parent());
    WithDirsAt(fs, at.Parent(), at.Target());
  }

  /**
   * A session without faults in which everything arrives commits exactly the source, and leaves
   * nothing staged, if and only if what is staged is a strict front of it and no block but the
   * first is too large. If nothing is missing any more, it sends only the end, which the server
   * refuses, and nothing changes.
   */
  lemma FullSession(fs: Files, gs: Files, root: text, rel: text, s: text, a: Attempt)
    requires Sendable(root, rel, s) && StagedPrefix(fs, rel, s) && Tree(fs) && WayClear(fs, rel)
    requires Session(fs, gs, root, rel, s, a) && a.heard && a.clean && (a.total == Fnv.Hash(s) || a.total == 0)
    requires a.cut == |SessionBytes(rel, s, |Content(fs, Current(rel).Temp())|, a.ns, a.total, a.meta)|
    ensures a.ok <==> |Content(fs, Current(rel).Temp())| < |s| && Acceptable(Later(a.ns))
    ensures a.ok ==> Get(gs, Current(rel).Target()) == Some(File(s)) && Current(rel).Temp() !in gs
    ensures |Content(fs, Current(rel).Temp())| >= |s| ==> gs == fs
  {
    hide Streamed, SessionBytes, NextJob, ReceiveFrom, BlocksOf, Accepted, Spot.Target, Spot.Temp, Spot.Parent;
    hide WayClear, WithDirs, Makeable;
    hide Fnv.Hash, Acceptable;
    var c := Content(fs, Current(rel).Temp());
    SessionKeepsPrefix(fs, gs, root, rel, s, a);
    if |c| >= |s| {
      StaysStuck(fs, gs, root, rel, s, a);
    } else {
      assert a.ns != [];
      var m := SessionJob(root, rel, s, |c|, a.ns, a.total, a.meta, a.cut);
      var job := NextJob(root, SessionBytes(rel, s, |c|, a.ns, a.total, a.meta)[..a.cut], []);
      var u := ReceiveFrom(job.header, job.input);
      if u.end.Some? {
        ClearWayOpens(fs, rel, s);
        AllOfTheSource(fs, rel, s, a.ns, m);
        GateOpens(fs, gs, root, rel, s, a, u);
      } else {
        GateShut(fs, gs, root, rel, a, u);
      }
    }
  }

  /** All blocks together make what is staged the source. */
  lemma AllOfTheSource(fs: Files, rel: text, s: text, ns: seq<nat>, m: nat)
    requires StagedPrefix(fs, rel, s) && m == |ns|
    requires var c := Content(fs, Current(rel).Temp()); Chunked(s, |c|, ns) && |c| + Sum(ns) == |s|
    ensures var c := Content(fs, Current(rel).Temp()); Assemble(c, BlocksOf(s, |c|, ns)[..m]) == s
  {
    hide Assemble, BlocksOf, Chunked, Spot.Temp;
    var c := Content(fs, Current(rel).Temp());
    assert c <= s && s[..|c|] == c;
    assert BlocksOf(s, |c|, ns)[..m] == BlocksOf(s, |c|, ns);
    AssembleOnto(c, s, ns);
    assert c + s[|c|..|s|] == s;
  }

  lemma GateShut(fs: Files, gs: Files, root: text, rel: text, a: Attempt, u: Upload)
    requires Streamed(fs, gs, root, rel, a.stamp, u, a.total, a.ok, a.clean) && u.end.None?
    ensures !a.ok
  {
    hide Assemble, Committed, NotCommitted, Left, VersionKept, BackupWorks, StreamWorks;
  }

  lemma NothingToSend(ns: seq<nat>)
    requires forall n :: n in ns ==> 0 < n < U32
    ensures Sum(ns) == 0 ==> ns == []
  {
    if ns != [] {
      assert ns[0] in ns;
    }
  }

  lemma GateOpens(fs: Files, gs: Files, root: text, rel: text, s: text, a: Attempt, u: Upload)
    requires Streamed(fs, gs, root, rel, a.stamp, u, a.total, a.ok, a.clean) && a.clean
    requires u.end == Some(EndFrame(a.total, a.meta).header) && (a.total == Fnv.Hash(s) || a.total == 0)
    requires Assemble(Content(fs, Current(rel).Temp()), u.blocks) == s
    requires StreamOpens(fs, rel) && !IsDir(WithDirs(fs, Current(rel).Parent()), Current(rel).Target())
    ensures a.ok
  {
    hide Assemble, StreamOpens, WithDirs, Fnv.Hash, Committed, NotCommitted, Left;
  }

  /** No session puts anything in the way. */
  lemma SessionKeepsWay(fs: Files, gs: Files, root: text, rel: text, s: text, a: Attempt)
    requires Sendable(root, rel, s) && Session(fs, gs, root, rel, s, a) && WayClear(fs, rel)
    ensures WayClear(gs, rel)
  {
    if a.heard {
      hide Streamed, SessionBytes, NextJob, ReceiveFrom, BlocksOf, EndFrame, Accepted, Spot.Target, Spot.Temp;
      hide Spot.Parent, Acceptable, WayClear;
      var pos := |Content(fs, Current(rel).Temp())|;
      var _ := SessionJob(root, rel, s, pos, a.ns, a.total, a.meta, a.cut);
      var job := NextJob(root, SessionBytes(rel, s, pos, a.ns, a.total, a.meta)[..a.cut], []);
      if job != Idle {
        StreamKeepsWay(fs, gs, root, rel, a.stamp, ReceiveFrom(job.header, job.input), a.total, a.ok, a.clean);
      }
    }
  }

  lemma StreamKeepsWay(fs: Files, gs: Files, root: text, rel: text, stamp: text, u: Upload, total: u64, ok: bool,
          clean: bool)
    requires Streamed(fs, gs, root, rel, stamp, u, total, ok, clean) && Accepted(rel) && WayClear(fs, rel)
    ensures WayClear(gs, rel)
  {
    hide Accepted, Assemble, StreamWorks, BackupWorks, VersionKept, Left, Gate, Confined, Spot.Target, Spot.Temp;
    hide Spot.Parent, Fnv.Hash;
    var at, v := Current(rel), Version(stamp, rel);
    var touched := if ok then {at.Temp(), at.Target(), v.Target(), v.Temp()} else {at.Temp(), v.Target(), v.Temp()};
    forall k | 0 <= k <= |at.Parent()|
      ensures !IsFile(gs, at.Parent()[..k])
    {
      NoFileAppears(fs, gs, rel, stamp, touched, k);
    }
    if !ok {
      NoDirInPlace(fs, gs, rel, stamp);
    }
  }

  lemma NoFileAppears(fs: Files, gs: Files, rel: text, stamp: text, touched: set<Path>, k: nat)
    requires Accepted(rel) && k <= |Current(rel).Parent()| && Current(rel).Target() != Current(rel).Parent()
    requires !IsFile(fs, Current(rel).Parent()[..k])
    requires Confined(fs, gs, touched, {Current(rel).Parent(), Version(stamp, rel).Target()})
    requires touched <= {Current(rel).Temp(), Current(rel).Target(), Version(stamp, rel).Target(),
      Version(stamp, rel).Temp()}
    ensures !IsFile(gs, Current(rel).Parent()[..k])
  {
    hide Accepted, Spot.Target, Spot.Temp, Spot.Parent;
    var at := Current(rel);
    SpotParts(at);
    VersionsOffWay(rel, stamp, k);
    var x := at.Parent()[..k];
    assert |x| < |at.Target()| && |x| < |at.Temp()|;
    assert x !in touched;
  }

  /** The directories above the target are no places of a version. */
  lemma VersionsOffWay(rel: text, stamp: text, k: nat)
    requires k <= |Current(rel).Parent()|
    ensures Current(rel).Parent()[..k] != Version(stamp, rel).Target()
    ensures Current(rel).Parent()[..k] != Version(stamp, rel).Temp()
    ensures !(Current(rel).Target() <= Version(stamp, rel).Target())
  {
    var x, v := Current(rel).Parent()[..k], Version(stamp, rel);
    assert CURRENT != VERSIONS;
    assert v.Target()[0] == v.Temp()[0] == VERSIONS && Current(rel).Target()[0] == CURRENT;
    assert x != [] ==> x[0] == CURRENT;
  }

  lemma NoDirInPlace(fs: Files, gs: Files, rel: text, stamp: text)
    requires NotCommitted(fs, gs, Current(rel), Version(stamp, rel)) && Accepted(rel)
    requires Current(rel).Target() != Current(rel).Parent() && !IsDir(fs, Current(rel).Target())
    ensures !IsDir(gs, Current(rel).Target())
  {
    hide Accepted, Spot.Target, Spot.Temp, Spot.Parent;
    var at, v := Current(rel), Version(stamp, rel);
    SpotParts(at);
    AreasDiffer(stamp, rel);
    VersionsOffWay(rel, stamp, 0);
    var ways := {at.Parent(), v.Target()};
    assert at.Target() !in {at.Temp(), v.Target(), v.Temp()};
    assert |at.Target()| > |at.Parent()|;
    assert !OnWay(at.Target(), ways);
  }

  /** Crashes first, then one undisturbed session: the source arrives exactly, unless nothing was missing any more. */
  lemma ResumeAfterCrashes(states: seq<Files>, attempts: seq<Attempt>, root: text, rel: text, s: text, fs: Files,
          gs: Files, a: Attempt)
    requires Sendable(root, rel, s) && |states| == |attempts| + 1 && StagedPrefix(states[0], rel, s)
    requires fs == states[|attempts|]
    requires forall i :: 0 <= i < |attempts| ==> Session(states[i], states[i + 1], root, rel, s, attempts[i])
    requires Tree(fs) && WayClear(states[0], rel)
    requires Session(fs, gs, root, rel, s, a) && a.heard && a.clean && (a.total == Fnv.Hash(s) || a.total == 0)
    requires a.cut == |SessionBytes(rel, s, |Content(fs, Current(rel).Temp())|, a.ns, a.total, a.meta)|
    requires Acceptable(Later(a.ns))
    ensures if |Content(fs, Current(rel).Temp())| < |s|
      then Get(gs, Current(rel).Target()) == Some(File(s)) && Current(rel).Temp() !in gs
      else gs == fs
  {
    hide Session, StagedPrefix, WayClear, Sendable, Fnv.Hash, SessionBytes, Spot.Target, Spot.Temp, Acceptable, Later;
    RunKeepsPrefix(states, root, rel, s, attempts);
    RunKeepsWay(states, root, rel, s, attempts);
    FullSession(fs, gs, root, rel, s, a);
  }

  lemma {:induction false} RunKeepsWay(states: seq<Files>, root: text, rel: text, s: text, attempts: seq<Attempt>)
    requires Sendable(root, rel, s) && |states| == |attempts| + 1 && WayClear(states[0], rel)
    requires forall i :: 0 <= i < |attempts| ==> Session(states[i], states[i + 1], root, rel, s, attempts[i])
    ensures WayClear(states[|attempts|], rel)
    decreases |attempts|
  {
    hide Session, WayClear;
    if attempts != [] {
      var n := |attempts| - 1;
      RunKeepsWay(states[..n + 1], root, rel, s, attempts[..n]);
      assert states[..n + 1][n] == states[n];
      SessionKeepsWay(states[n], states[n + 1], root, rel, s, attempts[n]);
    }
  }

  // ---- Progress ---------------------------------------------------------------------------------------------------

  /** The source is at the target, or nothing is missing in what is staged. */
  ghost predicate Finished(fs: Files, rel: text, s: text) {
    Get(fs, Current(rel).Target()) == Some(File(s)) || |Content(fs, Current(rel).Temp())| >= |s|
  }

  /** No fault, and at least the first block gets through if there is one. */
  ghost predicate Progressing(rel: text, a: Attempt) {
    |rel| <= MAX_NET_PATH && a.heard && a.clean && (a.ns != [] ==> FirstArrives(rel, a.ns, a.cut))
  }

  lemma SessionStaysFinished(fs: Files, gs: Files, root: text, rel: text, s: text, a: Attempt)
    requires Sendable(root, rel, s) && StagedPrefix(fs, rel, s) && Session(fs, gs, root, rel, s, a)
    requires Finished(fs, rel, s)
    ensures Finished(gs, rel, s)
  {
    hide Session, Sendable, StagedPrefix, Spot.Target, Spot.Temp;
    SessionKeepsPrefix(fs, gs, root, rel, s, a);
    if |Content(fs, Current(rel).Temp())| >= |s| {
      StaysStuck(fs, gs, root, rel, s, a);
    }
  }

  /** A session that gets its first block through commits the source or makes what is staged longer. */
  lemma SessionMakesProgress(fs: Files, gs: Files, root: text, rel: text, s: text, a: Attempt)
    requires Sendable(root, rel, s) && StagedPrefix(fs, rel, s) && Tree(fs) && WayClear(fs, rel)
    requires Session(fs, gs, root, rel, s, a) && Progressing(rel, a)
    ensures Finished(gs, rel, s) || |Content(gs, Current(rel).Temp())| > |Content(fs, Current(rel).Temp())|
  {
    hide Streamed, SessionBytes, NextJob, ReceiveFrom, BlocksOf, Accepted, Spot.Target, Spot.Temp, Spot.Parent;
    hide WayClear, Acceptable, FirstArrives;
    if Finished(fs, rel, s) {
      SessionStaysFinished(fs, gs, root, rel, s, a);
    } else {
      SessionKeepsPrefix(fs, gs, root, rel, s, a);
      var pos := |Content(fs, Current(rel).Temp())|;
      var m := SessionJob(root, rel, s, pos, a.ns, a.total, a.meta, a.cut);
      var job := NextJob(root, SessionBytes(rel, s, pos, a.ns, a.total, a.meta)[..a.cut], []);
      ClearWayOpens(fs, rel, s);
      if !a.ok {
        FirstBlockStays(fs, gs, root, rel, s, a, ReceiveFrom(job.header, job.input), m);
      }
    }
  }

  lemma FirstBlockStays(fs: Files, gs: Files, root: text, rel: text, s: text, a: Attempt, u: Upload, m: nat)
    requires Streamed(fs, gs, root, rel, a.stamp, u, a.total, a.ok, a.clean) && !a.ok && a.clean && StreamOpens(fs, rel)
    requires Chunked(s, |Content(fs, Current(rel).Temp())|, a.ns) && 0 < m <= |a.ns|
    requires u.blocks == BlocksOf(s, |Content(fs, Current(rel).Temp())|, a.ns)[..m]
    ensures |Content(gs, Current(rel).Temp())| > |Content(fs, Current(rel).Temp())|
  {
    hide Assemble, BlocksOf, Chunked, StreamOpens, StreamWorks, NotCommitted, Left, VersionKept, BackupWorks, Spot.Temp;
    var c := Content(fs, Current(rel).Temp());
    FirstBlocks(s, |c|, a.ns, m - 1);
    ChunkedNext(s, |c|, a.ns);
    var b, rest := Block(|c|, s[|c|..|c| + a.ns[0]]), BlocksOf(s, |c| + a.ns[0], a.ns[1..])[..m - 1];
    AssembleFront(c, b, rest);
    AssembleGrows(Overlay(c, b.offset, b.data), rest);
    OverlayAtEnd(c, b.data);
  }

  /**
   * However short each connection lives, as long as it lets the first block through, sessions
   * without faults get there: after as many as bytes were missing, the source is at the target or
   * nothing is missing any more in what is staged.
   */
  lemma {:induction false} SessionsGetThere(states: seq<Files>, root: text, rel: text, s: text, attempts: seq<Attempt>)
    requires Sendable(root, rel, s) && |states| == |attempts| + 1 && StagedPrefix(states[0], rel, s)
    requires WayClear(states[0], rel)
    requires forall i :: 0 <= i < |attempts| ==>
      Tree(states[i]) && Session(states[i], states[i + 1], root, rel, s, attempts[i]) && Progressing(rel, attempts[i])
    requires |Content(states[0], Current(rel).Temp())| + |attempts| >= |s|
    ensures Finished(states[|attempts|], rel, s)
    decreases |attempts|
  {
    hide Session, StagedPrefix, WayClear, Progressing, Spot.Target, Spot.Temp, Sendable, Tree;
    if attempts != [] {
      SessionKeepsPrefix(states[0], states[1], root, rel, s, attempts[0]);
      SessionKeepsWay(states[0], states[1], root, rel, s, attempts[0]);
      SessionMakesProgress(states[0], states[1], root, rel, s, attempts[0]);
      if Finished(states[1], rel, s) {
        RunStaysFinished(states[1..], root, rel, s, attempts[1..]);
      } else {
        SessionsGetThere(states[1..], root, rel, s, attempts[1..]);
      }
    }
  }

  lemma {:induction false} RunStaysFinished(states: seq<Files>, root: text, rel: text, s: text, attempts: seq<Attempt>)
    requires Sendable(root, rel, s) && |states| == |attempts| + 1 && StagedPrefix(states[0], rel, s)
    requires Finished(states[0], rel, s)
    requires forall i :: 0 <= i < |attempts| ==> Session(states[i], states[i + 1], root, rel, s, attempts[i])
    ensures Finished(states[|attempts|], rel, s)
    decreases |attempts|
  {
    hide Session, StagedPrefix, Finished, Sendable;
    if attempts != [] {
      SessionKeepsPrefix(states[0], states[1], root, rel, s, attempts[0]);
      SessionStaysFinished(states[0], states[1], root, rel, s, attempts[0]);
      RunStaysFinished(states[1..], root, rel, s, attempts[1..]);
    }
  }

  // ---- A corrupt staging file -------------------------------------------------------------------------------------

  /** What is staged is a front of the source, except that it has `b` at `i`. */
  ghost predicate StagedWrong(fs: Files, rel: text, s: text, i: nat, b: byte) {
    var temp := Current(rel).Temp();
    i < |s| && s[i] != b && IsFile(fs, temp) && i < |fs[temp].content| && fs[temp].content <= s[i := b]
  }

  lemma {:induction false} SameBlocks(s: text, t: text, pos: nat, ns: seq<nat>)
    requires Chunked(s, pos, ns) && |s| == |t| && forall j :: pos <= j < |s| ==> s[j] == t[j]
    ensures Chunked(t, pos, ns) && BlocksOf(s, pos, ns) == BlocksOf(t, pos, ns)
    decreases ns
  {
    if ns != [] {
      ChunkedNext(s, pos, ns);
      SameBlocks(s, t, pos + ns[0], ns[1..]);
      SamePointwise(s[pos..pos + ns[0]], t[pos..pos + ns[0]]);
    }
  }

  /** Blocks never make the staging file shorter. */
  lemma {:induction false} AssembleGrows(c: text, blocks: seq<Block>)
    ensures |Assemble(c, blocks)| >= |c|
  {
    hide Overlay;
    if blocks != [] {
      AssembleGrows(c, blocks[..|blocks| - 1]);
      OverlayGrows(Assemble(c, blocks[..|blocks| - 1]), blocks[|blocks| - 1].offset, blocks[|blocks| - 1].data);
    }
  }

  lemma OverlayGrows(c: text, offset: nat, data: text)
    ensures |Overlay(c, offset, data)| >= |c|
  {
  }

  lemma PartlyGrows(c: text, blocks: seq<Block>, n: nat, k: nat)
    requires n <= |blocks|
    ensures |Partly(c, blocks, n, k)| >= |c|
  {
    hide Overlay, Assemble;
    AssembleGrows(c, blocks);
    AssembleGrows(c, blocks[..n]);
    if n < |blocks| {
      OverlayGrows(Assemble(c, blocks[..n]), blocks[n].offset, blocks[n].data[..Min(k, |blocks[n].data|)]);
    }
  }

  /** No session commits a staged file with one wrong byte or repairs it, unless it announces no hash. */
  lemma WrongByteStays(fs: Files, gs: Files, root: text, rel: text, s: text, a: Attempt, i: nat, b: byte)
    requires Sendable(root, rel, s) && Session(fs, gs, root, rel, s, a) && StagedWrong(fs, rel, s, i, b)
    requires a.total == 0 || a.total == Fnv.Hash(s)
    ensures a.total != 0 || !a.heard || !a.ok ==> StagedWrong(gs, rel, s, i, b) && TargetAsBefore(fs, gs, rel)
    ensures a.total == 0 && a.heard && a.ok ==> Get(gs, Current(rel).Target()) == Some(File(s[i := b]))
  {
    hide SessionBytes, NextJob, ReceiveFrom, BlocksOf, Accepted, Spot.Target, Spot.Temp, Spot.Parent, Fnv.Hash;
    hide Streamed, Acceptable;
    if a.heard {
      var c := Content(fs, Current(rel).Temp());
      var m := SessionJob(root, rel, s, |c|, a.ns, a.total, a.meta, a.cut);
      var job := NextJob(root, SessionBytes(rel, s, |c|, a.ns, a.total, a.meta)[..a.cut], []);
      if job != Idle {
        SameBlocks(s, s[i := b], |c|, a.ns);
        WrongOnStaged(fs, gs, root, rel, s, a, ReceiveFrom(job.header, job.input), i, b, m);
      }
    }
  }

  lemma WrongOnStaged(fs: Files, gs: Files, root: text, rel: text, s: text, a: Attempt, u: Upload, i: nat, b: byte,
          m: nat)
    requires Streamed(fs, gs, root, rel, a.stamp, u, a.total, a.ok, a.clean) && StagedWrong(fs, rel, s, i, b)
    requires Accepted(rel)
    requires a.total == 0 || a.total == Fnv.Hash(s)
    requires Chunked(s[i := b], |Content(fs, Current(rel).Temp())|, a.ns) && a.ns != [] && m <= |a.ns|
    requires u.blocks == BlocksOf(s[i := b], |Content(fs, Current(rel).Temp())|, a.ns)[..m]
    requires u.end.Some? ==>
      u.end.value.totalHash == a.total && m == |a.ns| && |Content(fs, Current(rel).Temp())| + Sum(a.ns) == |s|
    ensures a.total != 0 || !a.ok ==> StagedWrong(gs, rel, s, i, b) && TargetAsBefore(fs, gs, rel)
    ensures a.total == 0 && a.ok ==> Get(gs, Current(rel).Target()) == Some(File(s[i := b]))
  {
    hide Partly, Assemble, BlocksOf, Accepted, StreamWorks, BackupWorks, VersionKept, Fnv.Hash, Spot.Target, Spot.Temp;
    hide Spot.Parent, Chunked;
    var at, c, t := Current(rel), Content(fs, Current(rel).Temp()), s[i := b];
    assert c <= t && t[..|c|] == c;
    SpotParts(at);
    if a.ok {
      assert BlocksOf(t, |c|, a.ns)[..m] == BlocksOf(t, |c|, a.ns);
      AssembleOnto(c, t, a.ns);
      assert c + t[|c|..|t|] == t;
      if a.total != 0 {
        Fnv.SingleByteCaught(s, i, b);
      }
    } else {
      TargetLeft(fs, gs, rel, a.stamp);
      if Get(gs, at.Temp()) != Get(fs, at.Temp()) {
        var n: nat, k: nat :| n <= |u.blocks| && Get(gs, at.Temp()) == Some(File(Partly(c, u.blocks, n, k)));
        PartlyIsPrefix(t, |c|, a.ns, m, n, k);
        PartlyGrows(c, u.blocks, n, k);
      }
    }
  }

  /** The target is what it was, or a directory where nothing was. */
  ghost predicate TargetAsBefore(fs: Files, gs: Files, rel: text) {
    var target := Current(rel).Target();
    Get(gs, target) == Get(fs, target) || (target !in fs && IsDir(gs, target))
  }

  /**
   * Once one byte of what is staged differs from the source, no number of sessions ever commits
   * it: the announced hash is not 0, and FNV-1a tells the two apart. Nor does any repair it.
   */
  lemma {:induction false} OneWrongByteIsNeverCommitted(states: seq<Files>, root: text, rel: text, s: text,
          attempts: seq<Attempt>, i: nat, b: byte)
    requires Sendable(root, rel, s) && |states| == |attempts| + 1 && StagedWrong(states[0], rel, s, i, b)
    requires Fnv.Hash(s) != 0
    requires forall k :: 0 <= k < |attempts| ==>
      Session(states[k], states[k + 1], root, rel, s, attempts[k]) && attempts[k].total == Fnv.Hash(s)
    ensures forall k :: 0 <= k < |states| ==>
      StagedWrong(states[k], rel, s, i, b) && TargetAsBefore(states[0], states[k], rel)
    decreases |attempts|
  {
    hide Session, StagedWrong, Spot.Target, Fnv.Hash, Sendable;
    if attempts != [] {
      var n := |attempts| - 1;
      var init := states[..n + 1];
      OneWrongByteIsNeverCommitted(init, root, rel, s, attempts[..n], i, b);
      assert forall k :: 0 <= k <= n ==> init[k] == states[k];
      assert init[n] == states[n];
      WrongByteStays(states[n], states[n + 1], root, rel, s, attempts[n], i, b);
    }
  }
}
