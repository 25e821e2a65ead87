/** The receiving side: handlers and connection loop of src/server.c. */
module Server {
  import opened Bytes
  import opened Io
  import opened Wire
  import opened Paths
  import opened FileTree
  import opened Serial
  import opened Store
  import Fnv

  /** The largest later block. */
  const MAX_BLOCK := 0x100_0000

  // ---- Block streams ---------------------------------------------------------------------------------------

  datatype Block = Block(offset: nat, data: text)

  /** The blocks a stream delivers before it fails, or before `end` if it does not. */
  datatype Upload = Upload(blocks: seq<Block>, end: Option<Header>)

  /** pwrite can put the block there. */
  predicate Writable(h: Header) { h.offset + h.dataLen <= MAX_OFFSET }

  /** What recv_file_blocks_until_end makes of the bytes `s`; paths behind block headers are not read. */
  function Receive(s: text, expected: u64): Upload
    decreases |s|
  {
    match FrontHeader(s)
    case None => Upload([], None)
    case Some(h) =>
      var n := HEADER_SIZE + h.dataLen;
      if h.msgType == MSG_FILE_END then
        Upload([], if expected != 0 && h.totalHash != 0 && expected != h.totalHash then None else Some(h))
      else if h.msgType != MSG_FILE_BLOCK || h.dataLen == 0 || h.dataLen > MAX_BLOCK || |s| < n then
        Upload([], None)
      else if (h.blockHash != 0 && Fnv.Hash(s[HEADER_SIZE..n]) != h.blockHash) || !Writable(h) then
        Upload([], None)
      else
        var rest := Receive(s[n..], expected);
        Upload([Block(h.offset, s[HEADER_SIZE..n])] + rest.blocks, rest.end)
  }

  /** A large stream: the first block of any size must match its hash, 0 included; then as above. */
  function ReceiveFrom(h: Header, s: text): Upload {
    if |s| < h.dataLen || Fnv.Hash(s[..h.dataLen]) != h.blockHash || !Writable(h) then Upload([], None)
    else
      var rest := Receive(s[h.dataLen..], 0);
      Upload([Block(h.offset, s[..h.dataLen])] + rest.blocks, rest.end)
  }

  /**
   * A block is taken exactly if it is not empty, not larger than 16 MiB, hashes to what its header
   * says, if that says anything, and fits into a file; otherwise nothing more is.
   */
  lemma BlockTakenIff(h: Header, data: text, rest: text, expected: u64)
    requires ValidHeader(h) && h.msgType == 3 && |data| == h.dataLen
    ensures var u, later := Receive(EncodeHeader(h) + (data + rest), expected), Receive(rest, expected);
      u == if 0 < h.dataLen <= 16 * 1024 * 1024 && (h.blockHash == 0 || h.blockHash == Fnv.Hash(data)) &&
        h.offset + h.dataLen <= 0x7FFF_FFFF_FFFF_FFFF
      then Upload([Block(h.offset, data)] + later.blocks, later.end) else Upload([], None)
  {
    hide EncodeHeader, FrontHeader, Fnv.Hash;
    var s := EncodeHeader(h) + (data + rest);
    FrontOfEncoded(h, data + rest);
    var n := HEADER_SIZE + h.dataLen;
    assert s[HEADER_SIZE..n] == data && s[n..] == rest;
  }

  /** The end is taken exactly if its total hash and the expected one agree or one of them is 0; nothing else is. */
  lemma EndTakenIff(h: Header, rest: text, expected: u64)
    requires ValidHeader(h) && h.msgType != 3
    ensures var u := Receive(EncodeHeader(h) + rest, expected);
      && u.blocks == []
      && u.end ==
        if h.msgType == 4 && (expected == 0 || h.totalHash == 0 || expected == h.totalHash) then Some(h) else None
  {
    hide EncodeHeader, FrontHeader;
    FrontOfEncoded(h, rest);
  }

  /** The first block of a large stream must hash to what its header says, 0 included, and has no size limit. */
  lemma FirstBlockTakenIff(h: Header, data: text, rest: text)
    ensures |data| == h.dataLen ==>
      var u, later := ReceiveFrom(h, data + rest), Receive(rest, 0);
      u == if h.blockHash == Fnv.Hash(data) && h.offset + h.dataLen <= 0x7FFF_FFFF_FFFF_FFFF
      then Upload([Block(h.offset, data)] + later.blocks, later.end) else Upload([], None)
    ensures |data| < h.dataLen ==> ReceiveFrom(h, data) == Upload([], None)
  {
    hide Fnv.Hash, Receive;
    if |data| == h.dataLen {
      assert (data + rest)[..h.dataLen] == data && (data + rest)[h.dataLen..] == rest;
    }
  }

  /** The staging file after all blocks. */
  function Assemble(c: text, blocks: seq<Block>): text {
    if blocks == [] then c
    else Overlay(Assemble(c, blocks[..|blocks| - 1]), blocks[|blocks| - 1].offset, blocks[|blocks| - 1].data)
  }

  /** The staging file after `n` blocks and `k` bytes of the next one. */
  function Partly(c: text, blocks: seq<Block>, n: nat, k: nat): text {
    if n >= |blocks| then Assemble(c, blocks)
    else Overlay(Assemble(c, blocks[..n]), blocks[n].offset, blocks[n].data[..Min(k, |blocks[n].data|)])
  }

  lemma AssembleNext(c: text, blocks: seq<Block>, b: Block)
    ensures Assemble(c, blocks + [b]) == Overlay(Assemble(c, blocks), b.offset, b.data)
  {
    assert (blocks + [b])[..|blocks|] == blocks;
  }

  lemma PartlyAt(c: text, done: seq<Block>, b: Block, rest: seq<Block>, k: nat)
    requires k <= |b.data|
    ensures Partly(c, done + ([b] + rest), |done|, k) == Overlay(Assemble(c, done), b.offset, b.data[..k])
  {
    var all := done + ([b] + rest);
    assert all[..|done|] == done && all[|done|] == b;
  }

  lemma PartlyNone(c: text, done: seq<Block>, rest: seq<Block>)
    ensures Partly(c, done + rest, |done|, 0) == Assemble(c, done)
    ensures done + [] == done
  {
    if rest != [] {
      PartlyAt(c, done, rest[0], rest[1..], 0);
      assert [rest[0]] + rest[1..] == rest;
    } else {
      assert done + rest == done;
    }
  }

  lemma WriteStep(base: Files, tmp: Path, content: text, b: Block, n: nat)
    requires n <= |b.data|
    ensures var fs := base[tmp := File(content)];
      && (Succeeds(Write(tmp, b.offset, b.data), fs) <==> b.offset + |b.data| <= MAX_OFFSET)
      && (Succeeds(Write(tmp, b.offset, b.data), fs) ==> Succeeds(Write(tmp, b.offset, b.data[..n]), fs))
      && (Succeeds(Write(tmp, b.offset, b.data), fs) ==>
        Effect(Write(tmp, b.offset, b.data[..n]), fs) == base[tmp := File(Overlay(content, b.offset, b.data[..n]))])
    ensures b.data[..|b.data|] == b.data
  {
  }

  /** One turn of the receiving loop on the bytes `s`. */
  lemma ReceiveTurn(s: text, expected: u64)
    ensures var u := Receive(s, expected);
      match FrontHeader(s)
      case None => u == Upload([], None)
      case Some(h) =>
        if h.msgType == MSG_FILE_END then
          u == Upload([], if expected != 0 && h.totalHash != 0 && expected != h.totalHash then None else Some(h))
        else if h.msgType != MSG_FILE_BLOCK || h.dataLen == 0 || h.dataLen > MAX_BLOCK ||
          |s| < HEADER_SIZE + h.dataLen then
          u == Upload([], None)
        else
          var data, rest := s[HEADER_SIZE..HEADER_SIZE + h.dataLen], s[HEADER_SIZE + h.dataLen..];
          if (h.blockHash != 0 && Fnv.Hash(data) != h.blockHash) || !Writable(h) then u == Upload([], None)
          else u == Upload([Block(h.offset, data)] + Receive(rest, expected).blocks, Receive(rest, expected).end)
  {
    hide FrontHeader, Fnv.Hash, Writable;
  }

  /** The data of one block, none if they are cut, do not have the hash in the header, or memory is short. */
  method ReadBlock(src: Source, disk: Disk, header: Header) returns (data: Option<text>)
    requires src.Valid() && disk.Valid()
    modifies src, disk`faulted
    ensures src.Valid() && disk.Valid() && (old(disk.faulted) ==> disk.faulted)
    ensures var s, n := old(src.Rest()), header.dataLen;
      var taken := |s| >= n && (header.blockHash == 0 || Fnv.Hash(s[..n]) == header.blockHash);
      && (data.Some? ==> taken && data.value == s[..n] && src.Rest() == s[n..])
      && (data.None? && !disk.faulted ==> !taken)
  {
    hide Fnv.Hash;
    var buffer := disk.Other();
    if !buffer {
      return None;
    }
    data := src.ReadFull(header.dataLen);
    if data.None? {
      return None;
    }
    var hash := Fnv.HashBuffer(data.value);
    if header.blockHash != 0 && hash != header.blockHash {
      return None;
    }
  }

  /** recv_file_blocks_until_end: the blocks land in order; a failure stops somewhere within one. */
  method ReceiveBlocks(src: Source, disk: Disk, tmp: Path, expected: u64, ghost base: Files, ghost c: text)
    returns (end: Option<Header>, ghost n: nat, ghost k: nat)
    requires src.Valid() && disk.Valid() && disk.locked && disk.files == base[tmp := File(c)]
    modifies src, disk
    ensures src.Valid() && disk.Continues()
    ensures var u := Receive(old(src.Rest()), expected);
      && n <= |u.blocks|
      && disk.files == base[tmp := File(Partly(c, u.blocks, n, k))]
      && (end.Some? || !disk.faulted ==> end == u.end && n == |u.blocks|)
  {
    hide Disciplined, Play, Tree, FrontHeader, Succeeds, Effect, Overlay, Assemble, Partly, Fnv.Hash, Receive, Writable;
    ghost var u := Receive(src.Rest(), expected);
    ghost var done: seq<Block> := [];
    n, k := 0, 0;
    assert Assemble(c, []) == c by { NothingAssembled(c); }
    while true
      invariant src.Valid() && disk.Continues()
      invariant u == Upload(done + Receive(src.Rest(), expected).blocks, Receive(src.Rest(), expected).end)
      invariant disk.files == base[tmp := File(Assemble(c, done))]
      decreases |src.data| - src.pos
    {
      ghost var s := src.Rest();
      ghost var rest := Receive(s, expected);
      n, k := |done|, 0;
      PartlyNone(c, done, rest.blocks);
      ReceiveTurn(s, expected);
      var h := RecvHeader(src);
      if h.None? {
        return None, n, k;
      }
      var header := h.value;
      if header.msgType == MSG_FILE_END {
        if expected != 0 && header.totalHash != 0 && expected != header.totalHash {
          return None, n, k;
        }
        return Some(header), n, k;
      }
      if header.msgType != MSG_FILE_BLOCK || header.dataLen == 0 || header.dataLen > MAX_BLOCK {
        return None, n, k;
      }
      var data := ReadBlock(src, disk, header);
      if |s| >= HEADER_SIZE + header.dataLen {
        SliceOfTail(s, HEADER_SIZE, header.dataLen);
      }
      if data.None? {
        return None, n, k;
      }
      ghost var b := Block(header.offset, data.value);
      var ok: bool;
      ok, k := disk.PWrite(tmp, header.offset, data.value);
      WriteStep(base, tmp, Assemble(c, done), b, k);
      WritableIff(header);
      if !ok {
        if Writable(header) {
          PartlyAt(c, done, b, Receive(src.Rest(), expected).blocks, k);
        } else {
          k := 0;
        }
        return None, n, k;
      }
      AssembleNext(c, done, b);
      ConcatAssociative(done, [b], Receive(src.Rest(), expected).blocks);
      done := done + [b];
    }
  }

  lemma WritableIff(h: Header)
    ensures Writable(h) <==> h.offset + h.dataLen <= MAX_OFFSET
  {
  }

  lemma NothingAssembled(c: text)
    ensures Assemble(c, []) == c
  {
  }

  // ---- The commit gate -----------------------------------------------------------------------------------------

  /** The hash the whole file must have, 0 for any. */
  function ExpectedHash(total: u64, end: Header): u64 { if end.totalHash != 0 then end.totalHash else total }

  ghost predicate Gate(total: u64, u: Upload, content: text) {
    u.end.Some? && (ExpectedHash(total, u.end.value) == 0 || Fnv.Hash(content) == ExpectedHash(total, u.end.value))
  }

  /** Nothing changed but the staging file, the version made of the old file, and new directories. */
  ghost predicate NotCommitted(fs: Files, gs: Files, at: Spot, v: Spot) {
    Confined(fs, gs, {at.Temp(), v.Target(), v.Temp()}, {at.Parent(), v.Target()})
  }

  /** The target is a file with this content; apart from it, as above, and nothing is staged any more. */
  ghost predicate Committed(fs: Files, gs: Files, at: Spot, v: Spot, content: text) {
    && Confined(fs, gs, {at.Temp(), at.Target(), v.Target(), v.Temp()}, {at.Parent(), v.Target()})
    && Get(gs, at.Target()) == Some(File(content)) && at.Temp() !in gs
  }

  /** rename from the staging file works unless a directory is in its place. */
  lemma ReadyToRename(gs: Files, at: Spot)
    requires Accepted(at.rel) && Tree(gs) && IsFile(gs, at.Temp())
    ensures WithDirs(gs, at.Parent()) == gs && Makeable(gs, at.Parent())
    ensures Succeeds(Rename(at.Temp(), at.Target()), gs) <==> !IsDir(gs, at.Target())
    ensures !IsDir(gs, at.Target()) ==>
      Effect(Rename(at.Temp(), at.Target()), gs) == (gs - {at.Temp()})[at.Target() := gs[at.Temp()]]
  {
    hide WithDirs, Effect, Accepted, Basename, Dirname;
    SpotParts(at);
    var p := at.Parent();
    assert ParentIsDir(gs, at.Temp()) && at.Temp()[..|at.Temp()| - 1] == p;
    forall k | 0 <= k <= |p|
      ensures IsDir(gs, p[..k])
    {
      AncestorsAreDirs(gs, p, k);
    }
    NoDirsMissing(gs, p);
    assert at.Target() != p ==> at.Target()[..|at.Target()| - 1] == p;
    if !IsDir(gs, at.Target()) {
      RenameFile(gs, at.Temp(), at.Target());
    }
  }

  lemma CommitFrame(fs: Files, gs: Files, at: Spot, v: Spot, content: text)
    requires Accepted(at.rel) && NotCommitted(fs, gs, at, v)
    ensures Committed(fs, (gs - {at.Temp()})[at.Target() := File(content)], at, v, content)
  {
    hide Accepted;
    SpotParts(at);
  }

  /** What happens to versions leaves the places of the current file alone. */
  lemma VersionsElsewhere(fs: Files, gs: Files, rel: text, stamp: text)
    requires Confined(fs, gs, {Version(stamp, rel).Target(), Version(stamp, rel).Temp()},
      {Version(stamp, rel).Target()})
    ensures var at := Current(rel);
      Get(gs, at.Target()) == Get(fs, at.Target()) && Get(gs, at.Temp()) == Get(fs, at.Temp()) &&
        Get(gs, at.Parent()) == Get(fs, at.Parent())
  {
    AreasDiffer(stamp, rel);
    var at, v := Current(rel), Version(stamp, rel);
    assert CURRENT != VERSIONS;
    forall p | OnWay(p, {v.Target()})
      ensures p == [] || p[0] == VERSIONS
    {
    }
    assert at.Target()[0] == at.Temp()[0] == at.Parent()[0] == CURRENT;
  }

  lemma ChangesSoFar(fs: Files, mid: Files, gs: Files, at: Spot, v: Spot, touched: set<Path>, node: Node)
    requires Confined(fs, mid, {}, {at.Parent()}) && Confined(mid, gs, touched, {v.Target()})
    requires touched <= {v.Target(), v.Temp()}
    ensures NotCommitted(fs, gs, at, v)
    ensures NotCommitted(fs, gs[at.Temp() := node], at, v)
  {
    ConfinedTrans(fs, mid, gs, {}, touched, {at.Parent()}, {v.Target()});
    ConfinedWider(fs, gs, {} + touched, {at.Temp(), v.Target(), v.Temp()}, {at.Parent()} +
      {v.Target()}, {at.Parent(), v.Target()});
  }

  lemma MoreDirs(fs: Files, mid: Files, gs: Files, at: Spot, v: Spot)
    requires NotCommitted(fs, mid, at, v) && Confined(mid, gs, {}, {at.Parent()})
    ensures NotCommitted(fs, gs, at, v)
  {
    var touched, ways := {at.Temp(), v.Target(), v.Temp()}, {at.Parent(), v.Target()};
    ConfinedTrans(fs, mid, gs, touched, {}, ways, {at.Parent()});
    ConfinedWider(fs, gs, touched + {}, touched, ways + {at.Parent()}, ways);
  }

  lemma ExistingKept(fs: Files, made: Files, at: Spot)
    requires Confined(fs, made, {}, {at.Parent()})
    ensures forall p :: p in fs ==> Get(made, p) == Get(fs, p)
    ensures forall p :: p !in fs ==> !IsFile(made, p)
  {
  }

  lemma CreateElsewhere(fs: Files, gs: Files, at: Spot)
    requires Accepted(at.rel) && Get(fs, at.Temp()) == Get(gs, at.Temp())
    requires Get(fs, at.Parent()) == Get(gs, at.Parent())
    ensures Succeeds(Create(at.Temp(), true), fs) <==> Succeeds(Create(at.Temp(), true), gs)
  {
    hide Accepted;
    SpotParts(at);
    assert at.Temp()[..|at.Temp()| - 1] == at.Parent();
  }

  lemma PartlyAll(c: text, blocks: seq<Block>, k: nat)
    ensures Partly(c, blocks, |blocks|, k) == Assemble(c, blocks)
  {
  }

  /** The rename that makes a checked staging file the current one. */
  method CommitStaged(disk: Disk, rel: text, ghost stamp: text, ghost fs: Files, ghost content: text) returns (ok: bool)
    requires disk.Valid() && disk.locked && Accepted(rel)
    requires NotCommitted(fs, disk.files, Current(rel), Version(stamp, rel))
    requires Get(disk.files, Current(rel).Temp()) == Some(File(content))
    modifies disk
    ensures disk.Continues()
    ensures ok ==> Committed(fs, disk.files, Current(rel), Version(stamp, rel), content)
    ensures !ok ==> NotCommitted(fs, disk.files, Current(rel), Version(stamp, rel))
    ensures Get(disk.files, Version(stamp, rel).Target()) == Get(old(disk.files), Version(stamp, rel).Target())
    ensures !ok ==> Get(disk.files, Current(rel).Temp()) == Get(old(disk.files), Current(rel).Temp())
    ensures !disk.faulted ==> (ok <==> !IsDir(old(disk.files), Current(rel).Target()))
  {
    hide Disciplined, Play, Tree, Makeable, Accepted, Succeeds, Effect, WithDirs, Confined;
    hide Spot.Target, Spot.Temp, Spot.Parent, NotCommitted, Committed;
    var at := Current(rel);
    ghost var staged := disk.files;
    TreeOf(disk);
    ReadyToRename(staged, at);
    AreasDiffer(stamp, rel);
    SpotParts(at);
    ok := SafeRename(disk, at.Temp(), at.Target(), at.Parent());
    if ok {
      CommitFrame(fs, staged, at, Version(stamp, rel), content);
    } else {
      DirsElsewhere(staged, disk.files, rel, stamp);
      MoreDirs(fs, staged, disk.files, at, Version(stamp, rel));
    }
  }

  lemma TreeOf(disk: Disk)
    requires disk.Valid()
    ensures Tree(disk.files)
  {
  }

  /** Directories on the way to the current file change neither the staged file nor versions. */
  lemma DirsElsewhere(fs: Files, gs: Files, rel: text, stamp: text)
    requires Confined(fs, gs, {}, {Current(rel).Parent()}) && Accepted(rel)
    ensures Get(gs, Current(rel).Temp()) == Get(fs, Current(rel).Temp())
    ensures Get(gs, Version(stamp, rel).Target()) == Get(fs, Version(stamp, rel).Target())
  {
    hide Accepted, Basename, Dirname;
    var at, v := Current(rel), Version(stamp, rel);
    SpotParts(at);
    assert CURRENT != VERSIONS;
    assert v.Target()[0] == VERSIONS;
    forall p | OnWay(p, {at.Parent()})
      ensures p <= at.Parent() && (p == [] || p[0] == CURRENT)
    {
    }
  }

  // ---- When a copy works ------------------------------------------------------------------------------------------

  /** When copying a file to `to` has no reason in the files to fail. */
  ghost predicate Placeable(fs: Files, to: Spot, len: nat) {
    var made := WithDirs(fs, to.Parent());
    && len + |SYNCING| < MAX_PATH_LEN && Makeable(fs, to.Parent())
    && Succeeds(Create(to.Temp(), true), made) && !IsDir(made, to.Target())
  }

  lemma PlaceableCopies(fs: Files, s: text, to: Spot, len: nat)
    requires Tree(fs) && Accepted(to.rel) && |s| <= MAX_OFFSET
    ensures CopyWorks(fs, s, to, len) <==> Placeable(fs, to, len)
  {
    hide Accepted, WithDirs, Tree, Spot.Target, Spot.Temp, Spot.Parent;
    var made := WithDirs(fs, to.Parent());
    if Makeable(fs, to.Parent()) && Succeeds(Create(to.Temp(), true), made) {
      MadeIsTree(fs, to.Parent());
      PutStaging(made, to, s);
      ReadyToRename(made[to.Temp() := File(s)], to);
      SpotParts(to);
    }
  }

  lemma {:induction false} MadeIsTree(fs: Files, p: Path)
    requires Tree(fs) && Makeable(fs, p)
    ensures Tree(WithDirs(fs, p))
    decreases |p|
  {
    hide Tree;
    if p != [] {
      var up := p[..|p| - 1];
      assert forall k :: 0 <= k < |up| ==> up[..k] == p[..k];
      MadeIsTree(fs, up);
      if p !in WithDirs(fs, up) {
        NoFileAbove(fs, p);
        PutKeepsTree(WithDirs(fs, up), p, Dir);
      }
    }
  }

  lemma NoFileAbove(fs: Files, p: Path)
    requires Tree(fs) && Makeable(fs, p) && p != []
    ensures ParentIsDir(WithDirs(fs, p[..|p| - 1]), p)
  {
    hide WithDirs;
    var up := p[..|p| - 1];
    assert !IsFile(fs, p[..|p| - 1]);
    WithDirsAt(fs, up, up);
  }

  lemma PutStaging(made: Files, at: Spot, s: text)
    requires Tree(made) && Accepted(at.rel) && Succeeds(Create(at.Temp(), true), made) && |s| <= MAX_OFFSET
    ensures Tree(made[at.Temp() := File(s)])
  {
    hide Accepted, Tree;
    SpotParts(at);
    FileHasParent(made, at.Temp());
    PutKeepsTree(made, at.Temp(), File(s));
  }

  lemma WayAgrees(fs: Files, gs: Files, p: Path)
    requires forall k :: 0 <= k <= |p| ==> Get(gs, p[..k]) == Get(fs, p[..k])
    ensures Makeable(gs, p) <==> Makeable(fs, p)
  {
    assert forall k :: 0 <= k <= |p| ==> IsFile(gs, p[..k]) == IsFile(fs, p[..k]);
  }

  lemma MadeAgrees(fs: Files, gs: Files, p: Path, x: Path)
    requires Get(gs, x) == Get(fs, x)
    ensures Get(WithDirs(gs, p), x) == Get(WithDirs(fs, p), x)
  {
    hide WithDirs;
    WithDirsAt(fs, p, x);
    WithDirsAt(gs, p, x);
  }

  /** It depends on nothing but the way to the place and the place itself. */
  lemma PlaceableAgrees(fs: Files, gs: Files, to: Spot, len: nat)
    requires Accepted(to.rel)
    requires forall k :: 0 <= k <= |to.Parent()| ==> Get(gs, to.Parent()[..k]) == Get(fs, to.Parent()[..k])
    requires Get(gs, to.Target()) == Get(fs, to.Target()) && Get(gs, to.Temp()) == Get(fs, to.Temp())
    ensures Placeable(gs, to, len) <==> Placeable(fs, to, len)
  {
    var p := to.Parent();
    assert p[..|p|] == p;
    WayAgrees(fs, gs, p);
    hide Accepted, WithDirs, Basename, Dirname, Spot.Target, Spot.Temp, Spot.Parent, Makeable;
    MadeAgrees(fs, gs, p, to.Temp());
    MadeAgrees(fs, gs, p, to.Target());
    MadeAgrees(fs, gs, p, p);
    CreateElsewhere(WithDirs(fs, p), WithDirs(gs, p), to);
  }

  /** The comparison of the staged file's hash with the expected one; 0 expects nothing. */
  method PassesGate(disk: Disk, tmp: Path, total: u64, end: Header, ghost content: text) returns (ok: bool)
    requires disk.Valid() && disk.locked && Get(disk.files, tmp) == Some(File(content))
    modifies disk`acts, disk`faulted
    ensures disk.Continues()
    ensures ok ==> ExpectedHash(total, end) == 0 || Fnv.Hash(content) == ExpectedHash(total, end)
    ensures !ok && !disk.faulted ==> ExpectedHash(total, end) != 0 && Fnv.Hash(content) != ExpectedHash(total, end)
  {
    hide Disciplined, Play, Tree, Fnv.Hash;
    var expected := ExpectedHash(total, end);
    if expected == 0 {
      return true;
    }
    var actual := disk.HashFile(tmp);
    ok := actual == expected;
  }

  /** fsync and the comparison behind the reception of `u`: it goes well exactly if the gate is open. */
  method SyncAndCheck(disk: Disk, tmp: Path, total: u64, end: Option<Header>, ghost c: text, ghost u: Upload,
          ghost content: text)
    returns (ok: bool)
    requires disk.Valid() && disk.locked && Get(disk.files, tmp) == Some(File(content))
    requires end.Some? || !disk.faulted ==> end == u.end && content == Assemble(c, u.blocks)
    modifies disk`acts, disk`faulted
    ensures disk.Continues()
    ensures ok ==> Gate(total, u, content) && content == Assemble(c, u.blocks)
    ensures !disk.faulted ==> (ok <==> Gate(total, u, content)) && content == Assemble(c, u.blocks)
  {
    hide Disciplined, Play, Tree, Fnv.Hash, Assemble;
    var synced := disk.Other();
    ok := end.Some? && synced;
    if ok {
      ok := PassesGate(disk, tmp, total, end.value, content);
    }
  }

  // ---- Renames ----------------------------------------------------------------------------------------------------

  /** Both paths can be built, no file is in the way of the new one's directories, and the move itself works. */
  ghost predicate RenameWorks(fs: Files, root: text, oldRel: text, rel: text) {
    var made := WithDirs(fs, Current(rel).Parent());
    && CurrentPath(root, oldRel).Some? && CurrentPath(root, rel).Some? && Makeable(fs, Current(rel).Parent())
    && Succeeds(Rename(Current(oldRel).Target(), Current(rel).Target()), made)
  }

  /** The node that was at the old path is at the new one, on top of the directories made for it. */
  ghost predicate RenamedTo(fs: Files, gs: Files, oldRel: text, rel: text) {
    var made, op := WithDirs(fs, Current(rel).Parent()), Rename(Current(oldRel).Target(), Current(rel).Target());
    Succeeds(op, made) && gs == Effect(op, made)
  }

  // ---- Small files ------------------------------------------------------------------------------------------------

  /** When directories, backup and staging file of an upload have no reason in the files to fail. */
  ghost predicate Opens(fs: Files, root: text, rel: text, stamp: text) {
    var at := Current(rel);
    var made := WithDirs(fs, at.Parent());
    Makeable(fs, at.Parent()) && BackupWorks(made, root, rel, stamp) && Succeeds(Create(at.Temp(), true), made)
  }

  /** When the upload of a regular file has no reason in the files or the bytes to fail. */
  ghost predicate UploadWorks(fs: Files, root: text, rel: text, stamp: text, u: Upload, total: u64) {
    && Opens(fs, root, rel, stamp)
    && !IsDir(WithDirs(fs, Current(rel).Parent()), Current(rel).Target())
    && Gate(total, u, Assemble([], u.blocks))
  }

  /** The staging file is as it was, or begun anew with a front of the blocks. */
  ghost predicate LeftBehind(fs: Files, gs: Files, at: Spot, u: Upload) {
    || Get(gs, at.Temp()) == Get(fs, at.Temp())
    || exists n: nat, k: nat | n <= |u.blocks| :: Get(gs, at.Temp()) == Some(File(Partly([], u.blocks, n, k)))
  }

  /** What one upload of a regular file does, whatever the bytes and whatever fails. */
  ghost predicate Uploaded(fs: Files, gs: Files, root: text, rel: text, stamp: text, u: Upload, total: u64, ok: bool,
          clean: bool)
  {
    var at, v := Current(rel), Version(stamp, rel);
    && (ok ==> Gate(total, u, Assemble([], u.blocks)) && Committed(fs, gs, at, v, Assemble([], u.blocks)))
    && (ok && IsFile(fs, at.Target()) ==> Get(gs, v.Target()) == Get(fs, at.Target()))
    && (ok && !IsFile(fs, at.Target()) ==> SameFile(fs, gs, v.Target()))
    && (!ok ==> NotCommitted(fs, gs, at, v) && VersionKept(fs, gs, rel, stamp) && LeftBehind(fs, gs, at, u))
    && (clean && !ok && Opens(fs, root, rel, stamp) ==> Get(gs, at.Temp()) == Some(File(Assemble([], u.blocks))))
    && (clean ==> (ok <==> UploadWorks(fs, root, rel, stamp, u, total)))
  }

  /** Directories, backup, and an empty staging file; `saved` is the state before the latter. */
  method OpenStaging(disk: Disk, root: text, rel: text, stamp: text) returns (ok: bool, ghost saved: Files)
    requires disk.Valid() && disk.locked && Accepted(rel)
    modifies disk
    ensures disk.Continues()
    ensures !ok ==> NotCommitted(old(disk.files), disk.files, Current(rel), Version(stamp, rel))
    ensures !ok ==> Get(disk.files, Current(rel).Temp()) == Get(old(disk.files), Current(rel).Temp())
    ensures ok ==> disk.files == saved[Current(rel).Temp() := File([])]
    ensures ok ==> forall c :: NotCommitted(old(disk.files), Staged(saved, rel, c), Current(rel), Version(stamp, rel))
    ensures ok ==>
      Get(saved, Current(rel).Target()) == Get(WithDirs(old(disk.files), Current(rel).Parent()), Current(rel).Target())
    ensures ok && IsFile(old(disk.files), Current(rel).Target()) ==>
      Get(saved, Version(stamp, rel).Target()) == Get(old(disk.files), Current(rel).Target())
    ensures ok && !IsFile(old(disk.files), Current(rel).Target()) ==>
      SameFile(old(disk.files), saved, Version(stamp, rel).Target())
    ensures !ok ==> VersionKept(old(disk.files), disk.files, rel, stamp)
    ensures !disk.faulted ==> (ok <==> Opens(old(disk.files), root, rel, stamp))
  {
    hide Disciplined, Play, Tree, Makeable, Accepted, Succeeds, Effect, WithDirs, Confined, BackupWorks;
    hide Spot.Target, Spot.Temp, Spot.Parent, NotCommitted;
    ghost var fs := disk.files;
    var at := Current(rel);
    ghost var v := Version(stamp, rel);
    ok := EnsureDirExists(disk, at.Parent());
    ghost var made := disk.files;
    saved := made;
    ConfinedRefl(made, {}, {v.Target()});
    ChangesSoFar(fs, made, made, at, v, {}, Dir);
    DirsElsewhere(fs, made, rel, stamp);
    if !ok {
      return;
    }
    ExistingKept(fs, made, at);
    ok := BackupOldVersion(disk, root, rel, stamp);
    saved := disk.files;
    VersionsElsewhere(made, saved, rel, stamp);
    CreateElsewhere(made, saved, at);
    forall c
      ensures NotCommitted(fs, saved, at, v) && NotCommitted(fs, Staged(saved, rel, c), at, v)
    {
      ChangesSoFar(fs, made, saved, at, v, {v.Target(), v.Temp()}, File(c));
    }
    assert NotCommitted(fs, Staged(saved, rel, []), at, v);
    if ok {
      ok := disk.Do(Create(at.Temp(), true));
      CreateAt(saved, at.Temp());
    }
  }

  ghost function Staged(fs: Files, rel: text, c: text): Files { fs[Current(rel).Temp() := File(c)] }

  /** The critical section of server_handle_file_begin for a regular file. */
  method StoreUpload(src: Source, disk: Disk, header: Header, root: text, rel: text, stamp: text) returns (ok: bool)
    requires src.Valid() && disk.Valid() && disk.locked && Accepted(rel)
    modifies src, disk
    ensures src.Valid() && disk.Continues()
    ensures Uploaded(old(disk.files), disk.files, root, rel, stamp, Receive(old(src.Rest()), header.totalHash),
      header.totalHash, ok, !disk.faulted)
  {
    hide Disciplined, Play, Tree, Opens, Accepted, WithDirs, Confined, Receive, Partly, Assemble, Gate;
    hide Spot.Target, Spot.Temp, Spot.Parent, Fnv.Hash, NotCommitted, Committed;
    ghost var fs := disk.files;
    var at := Current(rel);
    ghost var u, saved := Receive(src.Rest(), header.totalHash), fs;
    ok, saved := OpenStaging(disk, root, rel, stamp);
    AreasDiffer(stamp, rel);
    SpotParts(at);
    if ok {
      var end, n, k := ReceiveBlocks(src, disk, at.Temp(), header.totalHash, saved, []);
      ghost var content := Partly([], u.blocks, n, k);
      assert disk.files == Staged(saved, rel, content);
      PartlyAll([], u.blocks, k);
      ok := SyncAndCheck(disk, at.Temp(), header.totalHash, end, [], u, content);
      if ok {
        ok := CommitStaged(disk, rel, stamp, fs, content);
      }
    }
  }

  // ---- Large files ------------------------------------------------------------------------------------------------

  /** When a large stream gets as far as its staging file. */
  ghost predicate StreamOpens(fs: Files, rel: text) {
    Makeable(fs, Current(rel).Parent()) &&
      Succeeds(Create(Current(rel).Temp(), false), WithDirs(fs, Current(rel).Parent()))
  }

  /** When a large stream has no reason in the files or the bytes to fail. */
  ghost predicate StreamWorks(fs: Files, rel: text, u: Upload, total: u64) {
    var at := Current(rel);
    && StreamOpens(fs, rel) && !IsDir(WithDirs(fs, at.Parent()), at.Target())
    && Gate(total, u, Assemble(Content(fs, at.Temp()), u.blocks))
  }

  /**
   * What one large stream does: the blocks land on whatever is staged already, and what it leaves
   * staged is that with the first blocks and a part of the next, or all of them without faults. As
   * the result of the backup is ignored, what the target held before is in the version only if
   * nothing kept the backup from working, and otherwise the version stays.
   */
  ghost predicate Streamed(fs: Files, gs: Files, root: text, rel: text, stamp: text, u: Upload, total: u64, ok: bool,
          clean: bool)
  {
    var at, v, start := Current(rel), Version(stamp, rel), Content(fs, Current(rel).Temp());
    && (ok ==> Gate(total, u, Assemble(start, u.blocks)) && Committed(fs, gs, at, v, Assemble(start, u.blocks)))
    && (ok && clean && IsFile(fs, at.Target()) && BackupWorks(fs, root, rel, stamp) ==>
      Get(gs, v.Target()) == Get(fs, at.Target()))
    && VersionKept(fs, gs, rel, stamp)
    && (clean && !(IsFile(fs, at.Target()) && BackupWorks(fs, root, rel, stamp)) ==> SameFile(fs, gs, v.Target()))
    && (!ok ==> NotCommitted(fs, gs, at, v) && Left(fs, gs, at, u))
    && (clean && !ok && StreamOpens(fs, rel) ==> Get(gs, at.Temp()) == Some(File(Assemble(start, u.blocks))))
    && (clean ==> (ok <==> StreamWorks(fs, rel, u, total)))
  }

  /** The staging file is as it was, or has taken a front of the blocks. */
  ghost predicate Left(fs: Files, gs: Files, at: Spot, u: Upload) {
    || Get(gs, at.Temp()) == Get(fs, at.Temp())
    || exists n: nat, k: nat | n <= |u.blocks| ::
      Get(gs, at.Temp()) == Some(File(Partly(Content(fs, at.Temp()), u.blocks, n, k)))
  }

  lemma {:induction false} AssembleFront(c: text, b: Block, blocks: seq<Block>)
    ensures Assemble(c, [b] + blocks) == Assemble(Overlay(c, b.offset, b.data), blocks)
  {
    hide Overlay;
    if blocks == [] {
      assert [b] + blocks == [] + [b];
      AssembleNext(c, [], b);
    } else {
      var init, last := blocks[..|blocks| - 1], blocks[|blocks| - 1];
      assert blocks == init + [last];
      AssembleFront(c, b, init);
      AssembleNext(c, [b] + init, last);
      ConcatAssociative([b], init, [last]);
      AssembleNext(Overlay(c, b.offset, b.data), init, last);
    }
  }

  lemma PartlyFront(c: text, b: Block, blocks: seq<Block>, n: nat, k: nat)
    requires n <= |blocks|
    ensures Partly(c, [b] + blocks, n + 1, k) == Partly(Overlay(c, b.offset, b.data), blocks, n, k)
  {
    hide Overlay, Assemble;
    if n < |blocks| {
      assert ([b] + blocks)[..n + 1] == [b] + blocks[..n];
      AssembleFront(c, b, blocks[..n]);
    } else {
      AssembleFront(c, b, blocks);
    }
  }

  /** The part of handle_large_block_stream that reads: the first block, then the others. */
  method ReceiveStream(src: Source, disk: Disk, tmp: Path, first: Header, ghost base: Files, ghost c: text)
    returns (end: Option<Header>, ghost n: nat, ghost k: nat)
    requires src.Valid() && disk.Valid() && disk.locked && disk.files == base[tmp := File(c)]
    modifies src, disk
    ensures src.Valid() && disk.Continues()
    ensures var u := ReceiveFrom(first, old(src.Rest()));
      && n <= |u.blocks|
      && disk.files == base[tmp := File(Partly(c, u.blocks, n, k))]
      && (end.Some? || !disk.faulted ==> end == u.end && n == |u.blocks|)
  {
    hide Disciplined, Play, Tree, Receive, Succeeds, Effect, Overlay, Assemble, Partly, Fnv.Hash;
    ghost var u := ReceiveFrom(first, src.Rest());
    n, k := 0, 0;
    PartlyNone(c, [], u.blocks);
    NothingAssembled(c);
    assert [] + u.blocks == u.blocks;
    var buffer := disk.Other();
    if !buffer {
      return None, n, k;
    }
    var data := src.ReadFull(first.dataLen);
    if data.None? {
      return None, n, k;
    }
    var hash := Fnv.HashBuffer(data.value);
    if hash != first.blockHash {
      return None, n, k;
    }
    ghost var b := Block(first.offset, data.value);
    var ok: bool;
    ok, k := disk.PWrite(tmp, first.offset, data.value);
    WriteStep(base, tmp, c, b, k);
    ghost var rest := Receive(src.Rest(), 0);
    if !ok {
      if Writable(first) {
        PartlyAt(c, [], b, rest.blocks, k);
        assert [] + ([b] + rest.blocks) == u.blocks;
      } else {
        k := 0;
      }
      return None, n, k;
    }
    end, n, k := ReceiveBlocks(src, disk, tmp, 0, base, Overlay(c, b.offset, b.data));
    PartlyFront(c, b, rest.blocks, n, k);
    n := n + 1;
  }

  /** Directories and the staging file with whatever it holds already; `made` is the state before the latter. */
  method OpenStream(disk: Disk, rel: text, ghost stamp: text) returns (ok: bool, ghost made: Files)
    requires disk.Valid() && disk.locked && Accepted(rel)
    modifies disk
    ensures disk.Continues()
    ensures !ok ==> NotCommitted(old(disk.files), disk.files, Current(rel), Version(stamp, rel))
    ensures !ok ==> Get(disk.files, Current(rel).Temp()) == Get(old(disk.files), Current(rel).Temp())
    ensures ok ==> disk.files == Staged(made, rel, Content(old(disk.files), Current(rel).Temp()))
    ensures ok ==> forall c :: NotCommitted(old(disk.files), Staged(made, rel, c), Current(rel), Version(stamp, rel))
    ensures ok ==> made == WithDirs(old(disk.files), Current(rel).Parent())
    ensures Get(disk.files, Version(stamp, rel).Target()) == Get(old(disk.files), Version(stamp, rel).Target())
    ensures !disk.faulted ==> (ok <==> StreamOpens(old(disk.files), rel))
  {
    hide Disciplined, Play, Tree, Makeable, Accepted, Succeeds, Effect, WithDirs, Confined;
    hide Spot.Target, Spot.Temp, Spot.Parent, NotCommitted;
    ghost var fs := disk.files;
    var at := Current(rel);
    ghost var v := Version(stamp, rel);
    ok := EnsureDirExists(disk, at.Parent());
    made := disk.files;
    DirsElsewhere(fs, made, rel, stamp);
    AreasDiffer(stamp, rel);
    ConfinedRefl(made, {}, {v.Target()});
    ChangesSoFar(fs, made, made, at, v, {}, Dir);
    forall c
      ensures NotCommitted(fs, Staged(made, rel, c), at, v)
    {
      ChangesSoFar(fs, made, made, at, v, {}, File(c));
    }
    if ok {
      ok := disk.Do(Create(at.Temp(), false));
      OpenAt(made, at.Temp());
    }
  }

  /** The critical section of handle_large_block_stream. */
  method StoreStream(src: Source, disk: Disk, first: Header, root: text, rel: text, stamp: text) returns (ok: bool)
    requires src.Valid() && disk.Valid() && disk.locked && Accepted(rel)
    modifies src, disk
    ensures src.Valid() && disk.Continues()
    ensures Streamed(old(disk.files), disk.files, root, rel, stamp, ReceiveFrom(first, old(src.Rest())),
      first.totalHash, ok, !disk.faulted)
  {
    hide Disciplined, Play, Tree, Makeable, Accepted, Succeeds, WithDirs, Confined, BackupWorks, ReceiveFrom, Partly;
    hide Assemble, Gate;
    hide Spot.Target, Spot.Temp, Spot.Parent, Fnv.Hash, NotCommitted, Committed;
    ghost var fs := disk.files;
    var at := Current(rel);
    hide VersionKept, SameFile, StreamOpens;
    ghost var v, u, made := Version(stamp, rel), ReceiveFrom(first, src.Rest()), fs;
    TreeOf(disk);
    ok, made := OpenStream(disk, rel, stamp);
    VersionUntouched(fs, disk.files, rel, stamp);
    AreasDiffer(stamp, rel);
    SpotParts(at);
    if ok {
      ghost var start := Content(fs, at.Temp());
      var end, n, k := ReceiveStream(src, disk, at.Temp(), first, made, start);
      ghost var content := Partly(start, u.blocks, n, k);
      assert disk.files == Staged(made, rel, content);
      PartlyAll(start, u.blocks, k);
      ghost var staged := disk.files;
      VersionUntouched(fs, staged, rel, stamp);
      ok := SyncAndCheck(disk, at.Temp(), first.totalHash, end, start, u, content);
      if ok {
        TreeOf(disk);
        StagedBackup(fs, disk.files, root, rel, stamp, content);
        ok := BackupAndCommit(disk, root, rel, stamp, fs, content);
        VersionKeptThen(fs, staged, disk.files, rel, stamp);
      }
    }
  }

  lemma VersionUntouched(fs: Files, gs: Files, rel: text, stamp: text)
    requires Get(gs, Version(stamp, rel).Target()) == Get(fs, Version(stamp, rel).Target())
    ensures VersionKept(fs, gs, rel, stamp)
  {
  }

  lemma VersionKeptThen(fs: Files, mid: Files, gs: Files, rel: text, stamp: text)
    requires Get(mid, Version(stamp, rel).Target()) == Get(fs, Version(stamp, rel).Target())
    requires IsFile(mid, Current(rel).Target()) ==> Get(mid, Current(rel).Target()) == Get(fs, Current(rel).Target())
    requires VersionKept(mid, gs, rel, stamp)
    ensures VersionKept(fs, gs, rel, stamp)
  {
  }

  /** The staged file and the directories on its way do not matter for the backup. */
  lemma StagedBackup(fs: Files, gs: Files, root: text, rel: text, stamp: text, content: text)
    requires Tree(fs) && Tree(gs) && Accepted(rel)
    requires gs == Staged(WithDirs(fs, Current(rel).Parent()), rel, content)
    ensures IsFile(gs, Current(rel).Target()) <==> IsFile(fs, Current(rel).Target())
    ensures IsFile(fs, Current(rel).Target()) ==> Get(gs, Current(rel).Target()) == Get(fs, Current(rel).Target())
    ensures IsFile(fs, Current(rel).Target()) ==>
      (BackupWorks(gs, root, rel, stamp) <==> BackupWorks(fs, root, rel, stamp))
  {
    hide Accepted, WithDirs, Basename, Dirname, Located, CopyWorks, Placeable, Spot.Target, Spot.Temp, Spot.Parent;
    hide Tree;
    var at, v := Current(rel), Version(stamp, rel);
    SpotParts(at);
    WithDirsAt(fs, at.Parent(), at.Target());
    if IsFile(fs, at.Target()) && Located(root, v).Some? {
      var c, p := fs[at.Target()].content, v.Parent();
      SizeFits(fs, at.Target());
      forall x | x == [] || x[0] == VERSIONS
        ensures Get(gs, x) == Get(fs, x)
      {
        StagingElsewhere(fs, gs, rel, content, x);
      }
      VersionPlaces(stamp, rel);
      PlaceableAgrees(fs, gs, v, |Located(root, v).value|);
      PlaceableCopies(fs, c, v, |Located(root, v).value|);
      PlaceableCopies(gs, c, v, |Located(root, v).value|);
    }
  }

  lemma VersionPlaces(stamp: text, rel: text)
    ensures var v := Version(stamp, rel); v.Target()[0] == v.Temp()[0] == VERSIONS
    ensures var p := Version(stamp, rel).Parent(); forall k :: 0 <= k <= |p| ==> p[..k] == [] || p[..k][0] == VERSIONS
  {
  }

  lemma StagingElsewhere(fs: Files, gs: Files, rel: text, content: text, x: Path)
    requires Tree(fs) && Tree(gs) && gs == Staged(WithDirs(fs, Current(rel).Parent()), rel, content)
    requires x == [] || x[0] == VERSIONS
    ensures Get(gs, x) == Get(fs, x)
  {
    hide WithDirs;
    assert CURRENT != VERSIONS;
    WithDirsAt(fs, Current(rel).Parent(), x);
    assert Current(rel).Parent()[0] == Current(rel).Temp()[0] == CURRENT;
  }

  /** The backup, whose result is ignored, and the rename. */
  method BackupAndCommit(disk: Disk, root: text, rel: text, stamp: text, ghost fs: Files, ghost content: text)
    returns (ok: bool)
    requires disk.Valid() && disk.locked && Accepted(rel)
    requires NotCommitted(fs, disk.files, Current(rel), Version(stamp, rel))
    requires Get(disk.files, Current(rel).Temp()) == Some(File(content))
    modifies disk
    ensures disk.Continues()
    ensures ok ==> Committed(fs, disk.files, Current(rel), Version(stamp, rel), content)
    ensures !ok ==> NotCommitted(fs, disk.files, Current(rel), Version(stamp, rel))
    ensures !ok ==> Get(disk.files, Current(rel).Temp()) == Get(old(disk.files), Current(rel).Temp())
    ensures !disk.faulted ==> (ok <==> !IsDir(old(disk.files), Current(rel).Target()))
    ensures VersionKept(old(disk.files), disk.files, rel, stamp)
    ensures !disk.faulted ==>
      if IsFile(old(disk.files), Current(rel).Target()) && BackupWorks(old(disk.files), root, rel, stamp)
      then Get(disk.files, Version(stamp, rel).Target()) == Get(old(disk.files), Current(rel).Target())
      else SameFile(old(disk.files), disk.files, Version(stamp, rel).Target())
  {
    hide Disciplined, Play, Tree, Accepted, Confined, BackupWorks, NotCommitted, Committed, Spot.Target, Spot.Temp;
    hide Spot.Parent;
    ghost var staged := disk.files;
    var _ := BackupOldVersion(disk, root, rel, stamp);
    VersionsElsewhere(staged, disk.files, rel, stamp);
    MoreVersions(fs, staged, disk.files, Current(rel), Version(stamp, rel));
    ok := CommitStaged(disk, rel, stamp, fs, content);
  }

  lemma OpenAt(fs: Files, p: Path)
    ensures Succeeds(Create(p, false), fs) ==> Effect(Create(p, false), fs) == fs[p := File(Content(fs, p))]
  {
  }

  lemma MoreVersions(fs: Files, mid: Files, gs: Files, at: Spot, v: Spot)
    requires NotCommitted(fs, mid, at, v) && Confined(mid, gs, {v.Target(), v.Temp()}, {v.Target()})
    ensures NotCommitted(fs, gs, at, v)
  {
    var touched, ways := {at.Temp(), v.Target(), v.Temp()}, {at.Parent(), v.Target()};
    ConfinedTrans(fs, mid, gs, touched, {v.Target(), v.Temp()}, ways, {v.Target()});
    ConfinedWider(fs, gs, touched + {v.Target(), v.Temp()}, touched, ways + {v.Target()}, ways);
  }
}
