/** The message format of include/protocol.h and its transport (src/net_utils.c). */
module Wire {
  import opened Bytes
  import opened Io

  const PROTOCOL_MAGIC: u32 := 0x4D53594E
  const PROTOCOL_VERSION: u32 := 1
  const MAX_NET_PATH := 512

  const MSG_HELLO: u32 := 1
  const MSG_FILE_BEGIN: u32 := 2
  const MSG_FILE_BLOCK: u32 := 3
  const MSG_FILE_END: u32 := 4
  const MSG_FILE_DELETE: u32 := 5
  const MSG_FILE_RENAME: u32 := 6
  const MSG_QUERY_OFFSET: u32 := 7
  const MSG_OFFSET_REPLY: u32 := 8
  const MSG_ACK: u32 := 9
  const MSG_ERROR: u32 := 10
  const MSG_EXIT: u32 := 99

  /** SyncHeader; `mtime` is the two's-complement image of the signed field. */
  datatype Header = Header(
    magic: u32, version: u32, msgType: u32, pathLen: u32, fileSize: u64, offset: u64,
    dataLen: u32, mode: u32, mtime: u64, totalHash: u64, blockHash: u64)

  // ---- Headers ----------------------------------------------------------------------------

  const WIDTHS: seq<nat> := [4, 4, 4, 4, 8, 8, 4, 4, 8, 8, 8]
  const HEADER_SIZE := 64

  /** init_sync_header. */
  function InitHeader(msgType: u32): Header {
    Header(PROTOCOL_MAGIC, PROTOCOL_VERSION, msgType, 0, 0, 0, 0, 0, 0, 0, 0)
  }

  /** validate_sync_header. */
  predicate ValidHeader(h: Header) {
    h.magic == PROTOCOL_MAGIC && h.version == PROTOCOL_VERSION && h.pathLen <= MAX_NET_PATH
  }

  function Values(h: Header): seq<nat> {
    [h.magic, h.version, h.msgType, h.pathLen, h.fileSize, h.offset, h.dataLen, h.mode, h.mtime, h.totalHash,
      h.blockHash]
  }

  function OfValues(v: seq<nat>): Header
    requires FieldsFit(v, WIDTHS)
  {
    Widths();
    Header(v[0], v[1], v[2], v[3], v[4], v[5], v[6], v[7], v[8], v[9], v[10])
  }

  lemma HeaderFits(h: Header)
    ensures FieldsFit(Values(h), WIDTHS) && Total(WIDTHS) == HEADER_SIZE
  {
    Widths();
  }

  /** The memory image of the struct on a little-endian host: eleven fields, no padding. */
  function EncodeHeader(h: Header): (s: text)
    ensures |s| == HEADER_SIZE
  {
    HeaderFits(h);
    PackFields(Values(h), WIDTHS)
  }

  function DecodeHeader(s: text): Header
    requires |s| == HEADER_SIZE
  {
    HeaderFits(InitHeader(0));
    OfValues(UnpackFields(s, WIDTHS))
  }

  /** The bytes of a header, field by field. */
  function Image(msgType: u32, pathLen: u32, fileSize: u64, offset: u64, dataLen: u32, mode: u32, mtime: u64,
          totalHash: u64, blockHash: u64): text
  {
    Flat([Bytes32(0x4D53594E), Bytes32(1), Bytes32(msgType), Bytes32(pathLen), Bytes64(fileSize), Bytes64(offset),
      Bytes32(dataLen), Bytes32(mode), Bytes64(mtime), Bytes64(totalHash), Bytes64(blockHash)])
  }

  /** Which headers are acceptable, and what they look like on the wire. */
  lemma HeaderImage(h: Header)
    ensures ValidHeader(h) <==> h.magic == 0x4D53594E && h.version == 1 && h.pathLen <= 512
    ensures ValidHeader(h) ==>
      EncodeHeader(h) ==
      Image(h.msgType, h.pathLen, h.fileSize, h.offset, h.dataLen, h.mode, h.mtime, h.totalHash, h.blockHash)
  {
    PartsOf(h);
    HeaderFits(h);
    hide Le, Bytes32, Bytes64, Flat, PackFields, FieldsFit, Values;
    PackIsFlat(Values(h), WIDTHS, Parts(h));
  }

  function Parts(h: Header): seq<text> {
    [Bytes32(h.magic), Bytes32(h.version), Bytes32(h.msgType), Bytes32(h.pathLen), Bytes64(h.fileSize),
      Bytes64(h.offset), Bytes32(h.dataLen), Bytes32(h.mode), Bytes64(h.mtime), Bytes64(h.totalHash),
      Bytes64(h.blockHash)]
  }

  lemma PartsOf(h: Header)
    ensures FieldsFit(Values(h), WIDTHS)
    ensures |Parts(h)| == 11 && forall i :: 0 <= i < 11 ==> Parts(h)[i] == Le(Values(h)[i], WIDTHS[i])
  {
    HeaderFits(h);
    hide Le, Bytes32, Bytes64, FieldsFit, Pow256;
    LeOf32(h.magic);
    LeOf32(h.version);
    LeOf32(h.msgType);
    LeOf32(h.pathLen);
    LeOf64(h.fileSize);
    LeOf64(h.offset);
    LeOf32(h.dataLen);
    LeOf32(h.mode);
    LeOf64(h.mtime);
    LeOf64(h.totalHash);
    LeOf64(h.blockHash);
  }

  lemma DecodeOfEncode(h: Header)
    ensures DecodeHeader(EncodeHeader(h)) == h
  {
    HeaderFits(h);
    UnpackOfPack(Values(h), WIDTHS);
  }

  lemma EncodeOfDecode(s: text)
    requires |s| == HEADER_SIZE
    ensures EncodeHeader(DecodeHeader(s)) == s
  {
    var h := DecodeHeader(s);
    HeaderFits(h);
    var v := UnpackFields(s, WIDTHS);
    assert |v| == 11;
    assert Values(h) == v;
    PackOfUnpack(s, WIDTHS);
  }

  method SendHeader(sink: Sink, h: Header) returns (ok: bool)
    modifies sink
    ensures ok <==> HEADER_SIZE <= old(sink.room)
    ensures sink.sent == old(sink.sent) + EncodeHeader(h)[..Min(HEADER_SIZE, old(sink.room))]
    ensures sink.room == old(sink.room) - Min(HEADER_SIZE, old(sink.room))
  {
    ok := sink.WriteFull(EncodeHeader(h));
  }

  /** The header at the front of a byte stream, if a whole and acceptable one is there. */
  function FrontHeader(s: text): (r: Option<Header>)
    ensures r.Some? ==> |s| >= HEADER_SIZE && ValidHeader(r.value)
  {
    if |s| >= HEADER_SIZE && ValidHeader(DecodeHeader(s[..HEADER_SIZE]))
    then Some(DecodeHeader(s[..HEADER_SIZE])) else None
  }

  lemma FrontOfEncoded(h: Header, rest: text)
    ensures FrontHeader(EncodeHeader(h) + rest) == if ValidHeader(h) then Some(h) else None
    ensures (EncodeHeader(h) + rest)[HEADER_SIZE..] == rest
  {
    hide EncodeHeader;
    DecodeOfEncode(h);
    assert (EncodeHeader(h) + rest)[..HEADER_SIZE] == EncodeHeader(h);
  }

  method RecvHeader(src: Source) returns (r: Option<Header>)
    requires src.Valid()
    modifies src
    ensures src.Valid()
    ensures r == FrontHeader(old(src.Rest()))
    ensures r.Some? ==> src.Rest() == old(src.Rest())[HEADER_SIZE..]
  {
    var bytes := src.ReadFull(HEADER_SIZE);
    if bytes.None? {
      return None;
    }
    var h := DecodeHeader(bytes.value);
    r := if ValidHeader(h) then Some(h) else None;
  }

  // ---- Frames -----------------------------------------------------------------------------

  /** A header with the path and, for a block, the data that follow it on the stream. */
  datatype Frame = Frame(header: Header, payload: text)

  function PayloadLen(h: Header): nat {
    h.pathLen + if h.msgType == MSG_FILE_BLOCK then h.dataLen else 0
  }

  predicate WellFormed(f: Frame) {
    ValidHeader(f.header) && |f.payload| == PayloadLen(f.header)
  }

  function EncodeFrame(f: Frame): text { EncodeHeader(f.header) + f.payload }

  function EncodeFrames(fs: seq<Frame>): text {
    if fs == [] then [] else EncodeFrame(fs[0]) + EncodeFrames(fs[1..])
  }

  /** The frames a receiver gets out of a stream before its first failure. */
  function ParseFrames(s: text): (fs: seq<Frame>)
    decreases |s|
  {
    var front := FrontHeader(s);
    if front.None? || |s| < HEADER_SIZE + PayloadLen(front.value) then []
    else
      var n := HEADER_SIZE + PayloadLen(front.value);
      [Frame(front.value, s[HEADER_SIZE..n])] + ParseFrames(s[n..])
  }

  /** How many leading frames of `fs` are complete within the first `cut` bytes of their encoding. */
  function CompleteWithin(fs: seq<Frame>, cut: nat): (n: nat)
    ensures n <= |fs|
  {
    if fs == [] || cut < |EncodeFrame(fs[0])| then 0
    else 1 + CompleteWithin(fs[1..], cut - |EncodeFrame(fs[0])|)
  }

  lemma {:induction false} CompleteWithinIsExact(fs: seq<Frame>, cut: nat)
    ensures |EncodeFrames(fs[..CompleteWithin(fs, cut)])| <= cut
    ensures CompleteWithin(fs, cut) < |fs| ==> cut < |EncodeFrames(fs[..CompleteWithin(fs, cut) + 1])|
    ensures cut >= |EncodeFrames(fs)| ==> CompleteWithin(fs, cut) == |fs|
  {
    hide EncodeHeader, FrontHeader;
    if fs != [] {
      var n := |EncodeFrame(fs[0])|;
      if cut < n {
        assert fs[..1] == [fs[0]];
        assert EncodeFrames(fs[..1]) == EncodeFrame(fs[0]) + EncodeFrames(fs[..1][1..]);
      } else {
        CompleteWithinIsExact(fs[1..], cut - n);
        var m := CompleteWithin(fs[1..], cut - n);
        assert fs[..m + 1][1..] == fs[1..][..m];
        if m < |fs[1..]| {
          assert fs[..m + 2][1..] == fs[1..][..m + 1];
        }
      }
    }
  }

  lemma ParseFront(f: Frame, rest: text)
    requires WellFormed(f)
    ensures ParseFrames(EncodeFrame(f) + rest) == [f] + ParseFrames(rest)
  {
    hide EncodeHeader, FrontHeader;
    var s := EncodeFrame(f) + rest;
    assert s == EncodeHeader(f.header) + (f.payload + rest);
    FrontOfEncoded(f.header, f.payload + rest);
    var n := HEADER_SIZE + PayloadLen(f.header);
    assert s[HEADER_SIZE..n] == f.payload && s[n..] == rest;
  }

  lemma ParsePartial(f: Frame, cut: nat)
    requires WellFormed(f) && cut < |EncodeFrame(f)|
    ensures ParseFrames(EncodeFrame(f)[..cut]) == []
  {
    hide EncodeHeader, FrontHeader;
    if cut >= HEADER_SIZE {
      var rest := f.payload[..cut - HEADER_SIZE];
      assert EncodeFrame(f)[..cut] == EncodeHeader(f.header) + rest;
      FrontOfEncoded(f.header, rest);
    }
  }

  lemma ParseNothing()
    ensures ParseFrames([]) == []
  {
    hide FrontHeader;
  }

  /** A stream cut after `cut` bytes parses to exactly the frames that were complete by then. */
  lemma {:induction false} ParseOfTruncated(fs: seq<Frame>, cut: nat)
    requires forall f :: f in fs ==> WellFormed(f)
    requires cut <= |EncodeFrames(fs)|
    ensures ParseFrames(EncodeFrames(fs)[..cut]) == fs[..CompleteWithin(fs, cut)]
  {
    hide EncodeFrame, ParseFrames;
    if fs == [] {
      ParseNothing();
    } else {
      var f, whole := fs[0], EncodeFrames(fs);
      var n := |EncodeFrame(f)|;
      if cut < n {
        assert whole[..cut] == EncodeFrame(f)[..cut];
        ParsePartial(f, cut);
      } else {
        assert whole[..cut] == EncodeFrame(f) + EncodeFrames(fs[1..])[..cut - n];
        ParseFront(f, EncodeFrames(fs[1..])[..cut - n]);
        ParseOfTruncated(fs[1..], cut - n);
        var m := CompleteWithin(fs[1..], cut - n);
        assert fs[..m + 1] == [f] + fs[1..][..m];
      }
    }
  }

  lemma {:induction false} EncodeFramesConcat(fs: seq<Frame>, gs: seq<Frame>)
    ensures EncodeFrames(fs + gs) == EncodeFrames(fs) + EncodeFrames(gs)
  {
    hide EncodeFrame;
    ConcatTail(fs, gs);
    if fs != [] {
      EncodeFramesConcat(fs[1..], gs);
      ConcatAssociative(EncodeFrame(fs[0]), EncodeFrames(fs[1..]), EncodeFrames(gs));
    }
  }

  /** send_header, then the path or the block data with write_full. */
  method SendFrame(sink: Sink, f: Frame) returns (ok: bool)
    modifies sink
    ensures ok <==> |EncodeFrame(f)| <= old(sink.room)
    ensures sink.sent == old(sink.sent) + EncodeFrame(f)[..Min(|EncodeFrame(f)|, old(sink.room))]
    ensures sink.room == old(sink.room) - Min(|EncodeFrame(f)|, old(sink.room))
  {
    hide EncodeHeader;
    ok := SendHeader(sink, f.header);
    if ok {
      ok := sink.WriteFull(f.payload);
    }
  }

  /** recv_header, then the path and, for a block, the data. */
  method RecvFrame(src: Source) returns (r: Option<Frame>)
    requires src.Valid()
    modifies src
    ensures src.Valid()
    ensures ParseFrames(old(src.Rest())) == if r.None? then [] else [r.value] + ParseFrames(src.Rest())
    ensures r.Some? ==> src.pos > old(src.pos)
  {
    hide FrontHeader;
    var h := RecvHeader(src);
    if h.None? {
      return None;
    }
    var payload := src.ReadFull(PayloadLen(h.value));
    if payload.None? {
      return None;
    }
    ghost var s := old(src.Rest());
    assert s[HEADER_SIZE..][PayloadLen(h.value)..] == s[HEADER_SIZE + PayloadLen(h.value)..];
    assert s[HEADER_SIZE..][..PayloadLen(h.value)] == s[HEADER_SIZE..HEADER_SIZE + PayloadLen(h.value)];
    r := Some(Frame(h.value, payload.value));
  }

  lemma EncodePrefix(fs: seq<Frame>, i: nat)
    requires i < |fs|
    ensures EncodeFrames(fs[..i + 1]) == EncodeFrames(fs[..i]) + EncodeFrame(fs[i])
    ensures EncodeFrames(fs[..i + 1]) <= EncodeFrames(fs)
  {
    hide EncodeFrame;
    TakeNext(fs, i);
    EncodeFramesConcat(fs[..i + 1], fs[i + 1..]);
    EncodeFramesConcat(fs[..i], [fs[i]]);
    assert EncodeFrames([fs[i]]) == EncodeFrame(fs[i]) + EncodeFrames([]);
  }

  method SendFrames(sink: Sink, frames: seq<Frame>) returns (ok: bool)
    modifies sink
    ensures ok <==> |EncodeFrames(frames)| <= old(sink.room)
    ensures sink.sent == old(sink.sent) + EncodeFrames(frames)[..Min(|EncodeFrames(frames)|, old(sink.room))]
  {
    hide EncodeHeader, EncodeFrame;
    ok := true;
    assert frames[..|frames|] == frames;
    for i := 0 to |frames|
      invariant ok && |EncodeFrames(frames[..i])| <= old(sink.room)
      invariant sink.sent == old(sink.sent) + EncodeFrames(frames[..i])
      invariant sink.room == old(sink.room) - |EncodeFrames(frames[..i])|
    {
      EncodePrefix(frames, i);
      ok := SendFrame(sink, frames[i]);
      if !ok {
        return;
      }
    }
  }

  method RecvFrames(src: Source) returns (received: seq<Frame>)
    requires src.Valid() && src.pos == 0
    modifies src
    ensures received == ParseFrames(src.data)
  {
    hide FrontHeader, ParseFrames;
    received := [];
    while true
      invariant src.Valid()
      invariant received + ParseFrames(src.Rest()) == ParseFrames(src.data)
      decreases |src.data| - src.pos
    {
      var f := RecvFrame(src);
      if f.None? {
        break;
      }
      ConcatAssociative(received, [f.value], ParseFrames(src.Rest()));
      received := received + [f.value];
    }
  }

  /**
   * Sends `frames` over a connection that dies after `room` bytes and receives them at the other
   * end. However the writes and reads were split or interrupted, the receiver has exactly the
   * frames that were complete when the connection died, and then an error.
   */
  method Deliver(frames: seq<Frame>, room: nat, writeHiccups: nat, broken: bool, readHiccups: nat)
    returns (received: seq<Frame>)
    requires forall f :: f in frames ==> WellFormed(f)
    ensures received == frames[..CompleteWithin(frames, room)]
    ensures room >= |EncodeFrames(frames)| ==> received == frames
  {
    hide EncodeHeader, EncodeFrame, EncodeFrames, ParseFrames, CompleteWithin;
    var sink := new Sink(room, writeHiccups);
    var ok := SendFrames(sink, frames);
    CompleteWithinIsExact(frames, room);
    CompleteWithinIsExact(frames, |sink.sent|);
    ParseOfTruncated(frames, |sink.sent|);
    assert sink.sent == EncodeFrames(frames)[..|sink.sent|];
    var src := new Source(sink.sent, broken, readHiccups);
    received := RecvFrames(src);
    assert frames[..|frames|] == frames;
  }
}
