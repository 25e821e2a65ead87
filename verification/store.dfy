/** The backup directory on disk and the store operations of src/file_utils.c. */
module Store {
  import opened Bytes
  import opened Io
  import opened Paths
  import opened FileTree
  import opened Serial
  import Fnv

  /**
   * The disk as one thread of the server meets it. Any call may also fail for a reason outside the
   * model (no space, no permission, no memory, an I/O error) if the disk is one that `mayFail`;
   * `faulted` remembers that one did. `acts` is what the thread has done so far, and `start` is what
   * it found when it took the mutex last: other threads may have changed the files until then.
   */
  class Disk {
    const mayFail: bool
    var files: Files
    ghost var faulted: bool
    ghost var locked: bool
    ghost var sections: nat
    ghost var acts: seq<Act>
    ghost var start: Files

    ghost predicate Valid()
      reads this
    {
      && Tree(files) && (faulted ==> mayFail)
      && Disciplined(acts) && locked == Holding(acts) && sections == Sections(acts)
      && Play(start, LatestSection(acts)) == Some(files)
    }

    constructor (files: Files, mayFail: bool)
      requires Tree(files)
      ensures Valid() && this.files == files && this.mayFail == mayFail && !faulted && !locked && sections == 0
    {
      this.files, this.mayFail, this.faulted, this.locked, this.sections, this.acts, this.start := files, mayFail,
        false, false, 0, [], files;
    }

    /** Within one critical section: the mutex is not touched and faults are not forgotten. */
    twostate predicate Continues()
      reads this
    {
      Valid() && locked == old(locked) && sections == old(sections) && start == old(start) && (old(faulted) ==> faulted)
    }

    ghost method Note(act: Act)
      requires Valid() && Fits(files, act) && Next(files, act) == files
      requires !act.Lock? && !act.Unlock? && (act.Did? ==> locked)
      modifies this`acts
      ensures Valid() && acts == old(acts) + [act]
    {
      PlayNext(start, LatestSection(acts), act);
      assert (acts + [act])[..|acts|] == acts;
      acts := acts + [act];
    }

    /** pthread_mutex_lock: by the time it returns, other threads have made `found` of the files. */
    method Lock(found: Files)
      requires Valid() && !locked && Tree(found)
      modifies this
      ensures Valid() && locked && sections == old(sections) + 1
      ensures files == start == found && faulted == old(faulted)
    {
      assert (acts + [Act.Lock])[..|acts|] == acts;
      acts, locked, sections := acts + [Act.Lock], true, sections + 1;
      files, start := found, found;
      PlayNext(start, [], Act.Lock);
      assert [] + [Act.Lock] == [Act.Lock];
    }

    method Unlock()
      requires Valid() && locked
      modifies this
      ensures Valid() && !locked && sections == old(sections)
      ensures files == old(files) && faulted == old(faulted) && start == old(start)
    {
      PlayNext(start, LatestSection(acts), Act.Unlock);
      assert (acts + [Act.Unlock])[..|acts|] == acts;
      acts, locked := acts + [Act.Unlock], false;
    }

    /** Performs a change that cannot fail here. */
    method Apply(op: Op)
      requires Valid() && locked && Succeeds(op, files)
      modifies this
      ensures Continues() && files == Effect(op, old(files)) && faulted == old(faulted)
    {
      EffectKeepsTree(op, files);
      PlayNext(start, LatestSection(acts), Did(op));
      assert (acts + [Did(op)])[..|acts|] == acts;
      acts := acts + [Did(op)];
      files := Effect(op, files);
    }

    /** A system call other than pwrite. */
    method Do(op: Op) returns (ok: bool)
      requires Valid() && locked
      modifies this
      ensures Continues()
      ensures ok ==> Succeeds(op, old(files)) && files == Effect(op, old(files))
      ensures !ok ==> files == old(files) && (faulted || !Succeeds(op, old(files)))
    {
      var fault: bool := *;
      ok := Succeeds(op, files) && !(mayFail && fault);
      if ok {
        Apply(op);
      } else if Succeeds(op, files) {
        faulted := true;
      }
    }

    /** pwrite or write of a whole buffer; a failing one may have written the front of the buffer. */
    method PWrite(p: Path, offset: nat, data: text) returns (ok: bool, ghost n: nat)
      requires Valid() && locked
      modifies this
      ensures Continues()
      ensures n <= |data| && (ok ==> n == |data|)
      ensures ok ==> Succeeds(Write(p, offset, data), old(files))
      ensures !ok ==> faulted || !Succeeds(Write(p, offset, data), old(files))
      ensures !ok && !Succeeds(Write(p, offset, data), old(files)) ==> files == old(files)
      ensures Succeeds(Write(p, offset, data), old(files)) ==> files == Effect(Write(p, offset, data[..n]), old(files))
    {
      ok, n := Succeeds(Write(p, offset, data), files), |data|;
      if ok {
        var got: nat :| got <= |data|;
        var fault: bool := *;
        if mayFail && fault {
          ok, n := false, got;
          faulted := true;
          Apply(Write(p, offset, data[..got]));
        } else {
          assert data[..n] == data;
          Apply(Write(p, offset, data));
        }
      }
    }

    /** A call that says nothing about the files, such as malloc or fsync. */
    method Other() returns (ok: bool)
      requires Valid()
      modifies this`faulted
      ensures Continues() && (!ok ==> faulted) && (ok ==> faulted == old(faulted))
    {
      var fault: bool := *;
      ok := !(mayFail && fault);
      faulted := faulted || !ok;
    }

    /** access or stat under the mutex. */
    method Look(p: Path) returns (node: Option<Node>)
      requires Valid() && locked
      modifies this`acts
      ensures Valid() && node == Get(files, p) && acts == old(acts) + [Saw(p, node)]
    {
      node := Get(files, p);
      Note(Saw(p, node));
    }

    /** The same without the mutex: other threads have made `view` of the files by then. */
    method Glance(p: Path, view: Files) returns (node: Option<Node>)
      requires Valid() && !locked
      modifies this`acts
      ensures Valid() && node == Get(view, p) && acts == old(acts) + [Saw(p, node)]
    {
      node := Get(view, p);
      assert (acts + [Saw(p, node)])[..|acts|] == acts;
      acts := acts + [Saw(p, node)];
    }

    /** hash_file_fnv1a: 0 stands for an unreadable file. */
    method HashFile(p: Path) returns (hash: u64)
      requires Valid() && locked
      modifies this`acts, this`faulted
      ensures Continues()
      ensures hash == (if IsFile(files, p) then Fnv.Hash(files[p].content) else 0) || (hash == 0 && faulted)
    {
      hide Disciplined, Play, Tree, Fnv.Hash, Fnv.Fold, Fnv.Range, Fnv.RunsDry;
      var node := Look(p);
      if node.None? || node.value.Dir? {
        return 0;
      }
      var readable := Other();
      var hiccups: nat := *;
      var fd := new Source(node.value.content, !readable, hiccups);
      WholeRange(fd.data);
      hash := Fnv.HashFdRange(fd, 0, None, true);
    }
  }

  lemma WholeRange(data: text)
    ensures Fnv.Range(data, 0, None) == data && Fnv.RunsDry(data, 0, None)
  {
  }

  // ---- Places -------------------------------------------------------------------------------------------

  /** A relative path below `current`, a version directory or a trash directory. */
  datatype Spot = Spot(area: Path, rel: text) {
    function Target(): Path { area + Names(rel) }
    function Temp(): Path { area + Names(rel + SYNCING) }
    function Parent(): Path { area + Names(Dirname(rel)) }
  }

  function Current(rel: text): Spot { Spot([CURRENT], rel) }
  function Version(stamp: text, rel: text): Spot { Spot([VERSIONS, stamp], rel) }
  function Trash(stamp: text, rel: text): Spot { Spot([TRASH, stamp], rel) }

  /** The string the code builds for a spot: one join_path after the other. */
  function Located(root: text, spot: Spot): Option<text>
    decreases |spot.area|
  {
    if spot.area == [] then JoinPath(root, spot.rel)
    else
      var base := JoinPath(root, spot.area[0]);
      if base.None? then None else Located(base.value, Spot(spot.area[1..], spot.rel))
  }

  /** The strings handed to the kernel denote the places the model uses instead. */
  lemma {:induction false} SpotResolves(root: text, spot: Spot)
    requires Accepted(spot.rel) && Located(root, spot).Some? && forall n :: n in spot.area ==> EntryName(n)
    ensures var s := Located(root, spot).value;
      && Lexical(s) == Lexical(root) + spot.Target()
      && Lexical(s + SYNCING) == Lexical(root) + spot.Temp()
      && Lexical(Dirname(s)) == Lexical(root) + spot.Parent()
    decreases |spot.area|
  {
    hide Lexical, Names, Accepted, Dirname, EntryName, AsPrefix;
    if spot.area == [] {
      RelResolves(root, spot.rel);
      EmptyArea(Names(spot.rel));
      EmptyArea(Names(spot.rel + SYNCING));
      EmptyArea(Names(Dirname(spot.rel)));
    } else {
      var name, rest := spot.area[0], Spot(spot.area[1..], spot.rel);
      EntryResolves(root, name);
      SpotResolves(JoinPath(root, name).value, rest);
      assert spot.area == [name] + rest.area;
      Deeper(Lexical(root), name, rest.area, Names(spot.rel));
      Deeper(Lexical(root), name, rest.area, Names(spot.rel + SYNCING));
      Deeper(Lexical(root), name, rest.area, Names(Dirname(spot.rel)));
    }
  }

  lemma EmptyArea(p: Path)
    ensures [] + p == p
  {
  }

  lemma Deeper(at: Path, name: text, area: Path, p: Path)
    ensures at + [name] + (area + p) == at + ([name] + area + p)
  {
  }

  lemma EntryResolves(base: text, name: text)
    requires EntryName(name)
    ensures Lexical(AsPrefix(base) + name) == Lexical(base) + [name] && SkipSlashes(name) == name
  {
    hide AsPrefix;
    assert name[0] in name;
    LexicalOfPrefixed(base, name);
    ComponentsOfName(name);
    assert Walk(Lexical(base), [name]) == Lexical(base) + [name];
  }

  lemma RelResolves(base: text, rel: text)
    requires Accepted(rel)
    ensures SkipSlashes(rel) == rel
    ensures var s := AsPrefix(base) + rel;
      && Lexical(s) == Lexical(base) + Names(rel)
      && Lexical(s + SYNCING) == Lexical(base) + Names(rel + SYNCING)
      && Lexical(Dirname(s)) == Lexical(base) + Names(Dirname(rel))
  {
    AcceptedIsPlain(rel);
    AcceptedHasNoDotDot(rel);
    StagingHasNoDotDot(rel);
    hide Walk, Components, Accepted, Dirname, Basename;
    ConcatAssociative(AsPrefix(base), rel, SYNCING);
    LexicalOfPrefixed(base, rel);
    LexicalOfPrefixed(base, rel + SYNCING);
    WalkDown(Lexical(base), Components(rel));
    WalkDown(Lexical(base), Components(rel + SYNCING));
    DirnameResolves(base, rel);
  }

  lemma StagingHasNoDotDot(rel: text)
    requires Accepted(rel)
    ensures DOT_DOT !in Components(rel + SYNCING) && DOT_DOT !in Components(Dirname(rel))
  {
    AcceptedHasNoDotDot(rel);
    SplitLast(rel);
    var d, n := Dirname(rel), Basename(rel);
    hide Components, Accepted, Dirname, Basename;
    if SLASH in rel {
      assert rel + SYNCING == d + [SLASH] + (n + SYNCING);
      ComponentsOfParts(d, n);
      ComponentsOfParts(d, n + SYNCING);
    } else {
      ComponentsOfParts([], n + SYNCING);
      NoComponents();
    }
  }

  lemma NoComponents()
    ensures Components([]) == [[]]
  {
  }

  lemma DirnameResolves(base: text, rel: text)
    requires Accepted(rel)
    ensures Lexical(Dirname(AsPrefix(base) + rel)) == Lexical(base) + Names(Dirname(rel))
  {
    hide Components, Walk, Accepted, Basename;
    var b := if EndsWithSlash(base) then base[..|base| - 1] else base;
    assert AsPrefix(base) == b + [SLASH];
    DirnameOfJoin(b, rel);
    SplitLast(rel);
    assert Lexical(b) == Lexical(base) by { SlashIsIgnored(b); }
    if SLASH in rel {
      StagingHasNoDotDot(rel);
      LexicalOfPrefixed(base, Dirname(rel));
      WalkDown(Lexical(base), Components(Dirname(rel)));
    } else {
      NoNames();
    }
  }

  lemma SlashIsIgnored(b: text)
    ensures Lexical(b + [SLASH]) == Lexical(b)
  {
    ComponentsOfParts(b, []);
    assert b + [SLASH] + [] == b + [SLASH];
    WalkOne(Components(b), []);
  }

  lemma SpotParts(spot: Spot)
    requires Accepted(spot.rel)
    ensures spot.Temp() == spot.Parent() + [Basename(spot.rel) + SYNCING]
    ensures spot.Target() == spot.Parent() || spot.Target() == spot.Parent() + [Basename(spot.rel)]
    ensures spot.Temp() != spot.Target() && spot.area <= spot.Parent() && spot.area <= spot.Target()
    ensures spot.area <= spot.Temp()
  {
    hide Accepted, Dirname, Basename;
    NamesOfParts(spot.rel);
    ConcatAssociative(spot.area, Names(Dirname(spot.rel)), [Basename(spot.rel)]);
    ConcatAssociative(spot.area, Names(Dirname(spot.rel)), [Basename(spot.rel) + SYNCING]);
    assert spot.Temp()[|spot.Parent()|] == Basename(spot.rel) + SYNCING;
  }

  // ---- Store operations -------------------------------------------------------------------------------------

  lemma WithDirsFrame(fs: Files, p: Path)
    requires [] in fs
    ensures Confined(fs, WithDirs(fs, p), {}, {p}) && p in WithDirs(fs, p)
  {
    hide WithDirs;
    forall x
      ensures Get(WithDirs(fs, p), x) == Get(fs, x) ||
        (x !in fs && Get(WithDirs(fs, p), x) == Some(Dir) && OnWay(x, {p}))
    {
      WithDirsAt(fs, p, x);
      assert p in {p};
    }
    WithDirsAt(fs, p, p);
  }

  /** ensure_dir_exists; what mkdir finds in place already, a directory or not, is accepted. */
  method EnsureDirExists(disk: Disk, dir: Path) returns (ok: bool)
    requires disk.Valid() && disk.locked
    modifies disk
    ensures disk.Continues()
    ensures ok ==> disk.files == WithDirs(old(disk.files), dir) && Makeable(old(disk.files), dir)
    ensures Confined(old(disk.files), disk.files, {}, {dir})
    ensures !disk.faulted ==> (ok <==> Makeable(old(disk.files), dir))
  {
    hide Disciplined, Play, Tree, Succeeds, Effect, WithDirs, Confined, IsFile;
    ghost var fs := disk.files;
    NoDirs(fs, dir);
    for k := 1 to |dir| + 1
      invariant disk.Continues()
      invariant disk.files == WithDirs(fs, dir[..k - 1])
      invariant forall j :: 0 <= j < k - 1 ==> !IsFile(fs, dir[..j])
    {
      MkdirNext(fs, dir, k);
      ConfinedOnWay(fs, dir, k - 1);
      var made := disk.Do(Mkdir(dir[..k]));
      if !made && dir[..k] !in disk.files {
        return false;
      }
    }
    assert dir[..|dir|] == dir;
    WithDirsFrame(fs, dir);
    ok := true;
  }

  lemma ConfinedOnWay(fs: Files, dir: Path, k: nat)
    requires [] in fs && k <= |dir|
    ensures Confined(fs, WithDirs(fs, dir[..k]), {}, {dir})
  {
    WithDirsFrame(fs, dir[..k]);
    forall p | OnWay(p, {dir[..k]})
      ensures OnWay(p, {dir})
    {
      assert dir in {dir} && p <= dir;
    }
  }

  lemma NoDirs(fs: Files, dir: Path)
    requires Tree(fs)
    ensures [] in fs && WithDirs(fs, dir[..0]) == fs
  {
  }

  /** mkdir of the next directory fails for lack of a parent directory just in case a file is in its place. */
  lemma MkdirNext(fs: Files, dir: Path, k: nat)
    requires Tree(fs) && 0 < k <= |dir|
    ensures [] in fs
    ensures var before, p := WithDirs(fs, dir[..k - 1]), dir[..k];
      && (p in before ==> WithDirs(fs, p) == before && !IsFile(fs, dir[..k - 1]))
      && (p !in before ==> (Succeeds(Mkdir(p), before) <==> !IsFile(fs, dir[..k - 1])))
      && (Succeeds(Mkdir(p), before) ==> p !in before && Effect(Mkdir(p), before) == WithDirs(fs, p))
  {
    assert dir[..k][..k - 1] == dir[..k - 1];
    WithDirsAt(fs, dir[..k - 1], dir[..k - 1]);
    WithDirsAt(fs, dir[..k - 1], dir[..k]);
    assert dir[..k] in fs ==> ParentIsDir(fs, dir[..k]);
  }

  /** Making directories a second time changes nothing. */
  lemma MadeOnce(fs: Files, p: Path)
    requires Tree(fs)
    ensures WithDirs(WithDirs(fs, p), p) == WithDirs(fs, p)
    ensures Makeable(fs, p) ==> Makeable(WithDirs(fs, p), p)
    ensures Confined(fs, WithDirs(fs, p), {}, {p})
  {
    hide WithDirs, Confined;
    WithDirsFrame(fs, p);
    forall k | 0 <= k <= |p|
      ensures k > 0 ==> p[..k] in WithDirs(fs, p)
      ensures IsFile(WithDirs(fs, p), p[..k]) ==> IsFile(fs, p[..k])
    {
      WithDirsAt(fs, p, p[..k]);
    }
    NoDirsMissing(WithDirs(fs, p), p);
  }

  lemma MadeThenConfined(fs: Files, made: Files, gs: Files, p: Path)
    requires Confined(fs, made, {}, {p}) && Confined(made, gs, {}, {p})
    ensures Confined(fs, gs, {}, {p})
  {
    ConfinedTrans(fs, made, gs, {}, {}, {p}, {p});
    ConfinedWider(fs, gs, {} + {}, {}, {p} + {p}, {p});
  }

  /** safe_rename_or_copy_unlink within one file system. */
  method SafeRename(disk: Disk, src: Path, dst: Path, parent: Path) returns (ok: bool)
    requires disk.Valid() && disk.locked
    modifies disk
    ensures disk.Continues()
    ensures ok ==>
      && Succeeds(Rename(src, dst), WithDirs(old(disk.files), parent))
      && disk.files == Effect(Rename(src, dst), WithDirs(old(disk.files), parent))
    ensures !ok ==> Confined(old(disk.files), disk.files, {}, {parent})
    ensures !disk.faulted ==>
      (ok <==> Makeable(old(disk.files), parent) && Succeeds(Rename(src, dst), WithDirs(old(disk.files), parent)))
  {
    hide Disciplined, Play, Tree, Succeeds, Effect, WithDirs, Confined, Makeable;
    ok := EnsureDirExists(disk, parent);
    if ok {
      ok := disk.Do(Rename(src, dst));
    }
  }

  lemma CreateAt(fs: Files, p: Path)
    ensures Succeeds(Create(p, true), fs) ==> Effect(Create(p, true), fs) == fs[p := File([])]
  {
  }

  lemma SizeFits(fs: Files, p: Path)
    requires Tree(fs)
    ensures IsFile(fs, p) ==> |fs[p].content| <= MAX_OFFSET
  {
  }

  lemma AppendStep(base: Files, p: Path, content: text, piece: text, n: nat)
    requires |content| + |piece| <= MAX_OFFSET && n <= |piece|
    ensures var fs := base[p := File(content)];
      && Succeeds(Write(p, |content|, piece), fs) && Succeeds(Write(p, |content|, piece[..n]), fs)
      && Effect(Write(p, |content|, piece[..n]), fs) == base[p := File(content + piece[..n])]
  {
    OverlayAtEnd(content, piece[..n]);
  }

  /** The inner loop of copy_file_plain: short writes until everything is behind the old content. */
  method AppendAll(disk: Disk, dst: Path, ghost base: Files, before: text, bytes: text)
    returns (ok: bool, ghost content: text)
    requires disk.Valid() && disk.locked && disk.files == base[dst := File(before)] && |before| + |bytes| <= MAX_OFFSET
    modifies disk
    ensures disk.Continues()
    ensures disk.files == base[dst := File(content)]
    ensures ok ==> content == before + bytes
    ensures !ok ==> disk.faulted
  {
    hide Disciplined, Play, Tree, Succeeds, Effect;
    var done := 0;
    content := before;
    while done < |bytes|
      invariant disk.Continues() && 0 <= done <= |bytes|
      invariant content == before + bytes[..done] && disk.files == base[dst := File(content)]
    {
      var w: nat :| 0 < w <= |bytes| - done;
      var piece := bytes[done..done + w];
      ghost var n: nat;
      ok, n := disk.PWrite(dst, |before| + done, piece);
      AppendStep(base, dst, content, piece, n);
      AppendSlice(before, bytes, done, w);
      content := content + piece[..n];
      if !ok {
        return;
      }
      done := done + w;
    }
    assert bytes[..done] == bytes;
    ok := true;
  }

  lemma AppendSlice(before: text, bytes: text, done: nat, w: nat)
    requires done + w <= |bytes|
    ensures bytes[done..done + w][..w] == bytes[done..done + w]
    ensures before + bytes[..done] + bytes[done..done + w] == before + bytes[..done + w]
  {
  }

  /** When copy_file_plain has no reason in the files to fail, once the source is open. */
  ghost predicate Copyable(fs: Files, dst: Path, parent: Path) {
    Makeable(fs, parent) && Succeeds(Create(dst, true), WithDirs(fs, parent))
  }

  /** The files after a complete copy. */
  ghost function Copied(fs: Files, content: text, dst: Path, parent: Path): Files {
    WithDirs(fs, parent)[dst := File(content)]
  }

  /**
   * copy_file_plain: 8192-byte reads, each written out in as many pieces as it takes. `src` is the
   * source's content, None if it cannot be opened for reading as a file.
   */
  method CopyFilePlain(disk: Disk, src: Option<text>, dst: Path, parent: Path) returns (ok: bool)
    requires disk.Valid() && disk.locked && (src.Some? ==> |src.value| <= MAX_OFFSET)
    modifies disk
    ensures disk.Continues()
    ensures Confined(old(disk.files), disk.files, {dst}, {parent})
    ensures ok ==> src.Some? && disk.files == Copied(old(disk.files), src.value, dst, parent)
    ensures !disk.faulted ==> (ok <==> src.Some? && Copyable(old(disk.files), dst, parent))
  {
    hide Disciplined, Play, Tree, Succeeds, Effect, WithDirs, Confined, Makeable;
    ghost var fs := disk.files;
    ConfinedRefl(fs, {dst}, {parent});
    if src.None? {
      return false;
    }
    ok := EnsureDirExists(disk, parent);
    ConfinedWider(fs, disk.files, {}, {dst}, {parent}, {parent});
    if !ok {
      return;
    }
    ghost var made := disk.files;
    ok := disk.Do(Create(dst, true));
    if !ok {
      return;
    }
    CreateAt(made, dst);
    ConfinedWrite(fs, made, dst, File([]), {parent});
    ghost var content;
    ok, content := CopyBytes(disk, src.value, dst, made);
    ConfinedWrite(fs, made, dst, File(content), {parent});
    if ok {
      ok := disk.Other();
    }
  }

  /** The loop of copy_file_plain; reading the source may fail after any part of it. */
  method CopyBytes(disk: Disk, source: text, dst: Path, ghost base: Files) returns (ok: bool, ghost content: text)
    requires disk.Valid() && disk.locked && disk.files == base[dst := File([])] && |source| <= MAX_OFFSET
    modifies disk
    ensures disk.Continues() && disk.files == base[dst := File(content)]
    ensures (ok ==> content == source) && (!ok ==> disk.faulted)
  {
    hide Disciplined, Play, Tree, Succeeds, Effect;
    var sound := disk.Other();
    var hiccups: nat := *;
    var readable: nat :| readable <= |source| && (readable < |source| ==> !sound);
    var input := new Source(source[..readable], !sound, hiccups);
    content := [];
    while true
      invariant disk.Continues() && input.Valid() && (input.broken ==> disk.faulted)
      invariant content == input.data[..input.pos] && disk.files == base[dst := File(content)]
      decreases |input.data| - input.pos, input.hiccups
    {
      ghost var pos := input.pos;
      var before := input.data[..input.pos];
      var r := input.Read(8192);
      if r.ReadInterrupted? {
        continue;
      }
      if r.ReadFailed? {
        return false, content;
      }
      if r.bytes == [] {
        break;
      }
      ok, content := AppendAll(disk, dst, base, before, r.bytes);
      SliceJoin(input.data, 0, pos, input.pos);
      if !ok {
        return;
      }
    }
    ok := true;
  }

  /** When copy_file_atomic of `content` has no reason in the files to fail, for a target string of `len` bytes. */
  ghost predicate CopyWorks(fs: Files, content: text, to: Spot, len: nat) {
    && len + |SYNCING| < MAX_PATH_LEN
    && Copyable(fs, to.Temp(), to.Parent())
    && Succeeds(Rename(to.Temp(), to.Target()), Copied(fs, content, to.Temp(), to.Parent()))
  }

  /** copy_file_atomic: the target appears complete or not at all. */
  method CopyFileAtomic(disk: Disk, src: Option<text>, to: Spot, len: nat) returns (ok: bool)
    requires disk.Valid() && disk.locked && Accepted(to.rel) && (src.Some? ==> |src.value| <= MAX_OFFSET)
    modifies disk
    ensures disk.Continues()
    ensures Confined(old(disk.files), disk.files, if ok then {to.Temp(), to.Target()} else {to.Temp()}, {to.Parent()})
    ensures ok ==> src.Some? && Get(disk.files, to.Target()) == Some(File(src.value)) && to.Temp() !in disk.files
    ensures !disk.faulted ==> (ok <==> src.Some? && CopyWorks(old(disk.files), src.value, to, len))
    ensures !disk.faulted && len + |SYNCING| < MAX_PATH_LEN ==> !IsFile(disk.files, to.Temp())
  {
    hide Disciplined, Play, Tree, Succeeds, Effect, WithDirs, Confined, Makeable, Accepted, Copied;
    hide Spot.Target, Spot.Temp, Spot.Parent;
    ghost var fs := disk.files;
    if len + |SYNCING| >= MAX_PATH_LEN {
      ConfinedRefl(fs, {to.Temp()}, {to.Parent()});
      return false;
    }
    ok := CopyFilePlain(disk, src, to.Temp(), to.Parent());
    if !ok {
      UnlinkStaging(disk, to, fs);
      return false;
    }
    SpotParts(to);
    ghost var copied := disk.files;
    ParentIsThere(fs, src.value, to);
    ok := SafeRename(disk, to.Temp(), to.Target(), to.Parent());
    if !ok {
      ConfinedTrans(fs, copied, disk.files, {to.Temp()}, {}, {to.Parent()}, {to.Parent()});
      ConfinedWider(fs, disk.files, {to.Temp()} + {}, {to.Temp()}, {to.Parent()} + {to.Parent()}, {to.Parent()});
      UnlinkStaging(disk, to, fs);
      return false;
    }
    RenameIntoPlace(fs, copied, to);
  }

  /** unlink(tmp) after a failure; its result is ignored. */
  method UnlinkStaging(disk: Disk, to: Spot, ghost fs: Files)
    requires disk.Valid() && disk.locked && Confined(fs, disk.files, {to.Temp()}, {to.Parent()})
    modifies disk
    ensures disk.Continues() && Confined(fs, disk.files, {to.Temp()}, {to.Parent()})
    ensures !disk.faulted ==> !IsFile(disk.files, to.Temp())
  {
    var _ := disk.Do(Unlink(to.Temp()));
  }

  lemma ParentIsThere(fs: Files, content: text, to: Spot)
    requires Accepted(to.rel)
    ensures var copied := Copied(fs, content, to.Temp(), to.Parent());
      WithDirs(copied, to.Parent()) == copied && (Makeable(fs, to.Parent()) ==> Makeable(copied, to.Parent()))
      && Get(copied, to.Temp()) == Some(File(content))
  {
    hide WithDirs, Accepted, Dirname, Basename;
    var copied, p := Copied(fs, content, to.Temp(), to.Parent()), to.Parent();
    SpotParts(to);
    forall k | 0 < k <= |p|
      ensures p[..k] in copied && (p[..k] in fs ==> copied[p[..k]] == fs[p[..k]])
      ensures (p[..k] !in fs ==> copied[p[..k]] == Dir)
    {
      WithDirsAt(fs, p, p[..k]);
      assert p[..k] != to.Temp();
    }
    NoDirsMissing(copied, p);
    WithDirsAt(fs, p, []);
    assert p[..0] == [] && to.Temp() != [];
  }

  lemma RenameIntoPlace(fs: Files, copied: Files, to: Spot)
    requires Accepted(to.rel) && Tree(copied) && IsFile(copied, to.Temp())
    requires Confined(fs, copied, {to.Temp()}, {to.Parent()}) && Succeeds(Rename(to.Temp(), to.Target()), copied)
    ensures var gs := Effect(Rename(to.Temp(), to.Target()), copied);
      Confined(fs, gs, {to.Temp(), to.Target()}, {to.Parent()}) && Get(gs, to.Target()) == Get(copied, to.Temp()) &&
        to.Temp() !in gs
  {
    hide Effect, Tree, Accepted;
    SpotParts(to);
    RenameFile(copied, to.Temp(), to.Target());
  }

  lemma AreasDiffer(stamp: text, rel: text)
    ensures var c := Current(rel); forall v :: v == Version(stamp, rel) || v == Trash(stamp, rel) ==>
      {c.Target(), c.Temp(), c.Parent()} !! {v.Target(), v.Temp(), v.Parent()}
    ensures Version(stamp, rel).Target() != Trash(stamp, rel).Target()
  {
    assert CURRENT != VERSIONS && CURRENT != TRASH && VERSIONS != TRASH;
    var c := Current(rel);
    assert c.Target()[0] == c.Temp()[0] == c.Parent()[0] == CURRENT;
    forall v | v == Version(stamp, rel) || v == Trash(stamp, rel)
      ensures v.Target()[0] == v.Temp()[0] == v.Parent()[0] == v.area[0]
    {
    }
  }

  /** When backup_old_version has no reason in the files to fail. */
  ghost predicate BackupWorks(fs: Files, root: text, rel: text, stamp: text) {
    var src, to := Current(rel).Target(), Version(stamp, rel);
    Accepted(rel) && Located(root, Current(rel)).Some? &&
    (src in fs ==>
      Located(root, to).Some? &&
      if IsDir(fs, src) then Makeable(fs, to.Target())
        else CopyWorks(fs, fs[src].content, to, |Located(root, to).value|))
  }

  /** The version of this second is as before, or holds what the current file held. */
  ghost predicate VersionKept(fs: Files, gs: Files, rel: text, stamp: text) {
    var t, v := Current(rel).Target(), Version(stamp, rel).Target();
    SameFile(fs, gs, v) || (IsFile(fs, t) && Get(gs, v) == Get(fs, t))
  }

  /**
   * backup_old_version: after success the version directory of this second holds what the current
   * file held; after failure at most the staging file next to it has changed.
   */
  method BackupOldVersion(disk: Disk, root: text, rel: text, stamp: text) returns (ok: bool)
    requires disk.Valid() && disk.locked
    modifies disk
    ensures disk.Continues()
    ensures Confined(old(disk.files), disk.files, {Version(stamp, rel).Target(), Version(stamp, rel).Temp()},
      {Version(stamp, rel).Target()})
    ensures Get(disk.files, Current(rel).Target()) == Get(old(disk.files), Current(rel).Target())
    ensures !ok ==> Confined(old(disk.files), disk.files, {Version(stamp, rel).Temp()}, {Version(stamp, rel).Target()})
    ensures ok && IsFile(old(disk.files), Current(rel).Target()) ==>
      Get(disk.files, Version(stamp, rel).Target()) == Get(old(disk.files), Current(rel).Target())
    ensures ok && !IsFile(old(disk.files), Current(rel).Target()) ==>
      Confined(old(disk.files), disk.files, {}, {Version(stamp, rel).Target()})
    ensures !ok || !IsFile(old(disk.files), Current(rel).Target()) ==>
      SameFile(old(disk.files), disk.files, Version(stamp, rel).Target())
    ensures VersionKept(old(disk.files), disk.files, rel, stamp)
    ensures !disk.faulted ==> (ok <==> BackupWorks(old(disk.files), root, rel, stamp))
  {
    hide Disciplined, Play, Tree, Confined, Makeable, Accepted, Located, CopyWorks;
    hide Spot.Target, Spot.Temp, Spot.Parent;
    ghost var fs := disk.files;
    var from, to := Current(rel), Version(stamp, rel);
    ConfinedRefl(fs, {}, {to.Target()});
    AreasDiffer(stamp, rel);
    if Accepted(rel) {
      SpotParts(to);
    }
    if !Accepted(rel) || Located(root, from).None? {
      ConfinedTo(fs, fs, {}, from.Target(), to);
      return false;
    }
    var src := disk.Look(from.Target());
    if src.None? {
      ConfinedTo(fs, fs, {}, from.Target(), to);
      return true;
    }
    var dst := Located(root, to);
    if dst.None? {
      ConfinedTo(fs, fs, {}, from.Target(), to);
      return false;
    }
    if src.value.Dir? {
      ok := EnsureDirExists(disk, to.Target());
      ConfinedTo(fs, disk.files, {}, from.Target(), to);
      return;
    }
    SizeFits(fs, from.Target());
    var content := Some(src.value.content);
    var opens := disk.Other();
    if !opens {
      content := None;
    }
    ok := CopyFileAtomic(disk, content, to, |dst.value|);
    ParentOnWay(fs, disk.files, if ok then {to.Temp(), to.Target()} else {to.Temp()}, to);
    ConfinedTo(fs, disk.files, if ok then {to.Temp(), to.Target()} else {to.Temp()}, from.Target(), to);
  }

  lemma ParentOnWay(fs: Files, gs: Files, touched: set<Path>, to: Spot)
    requires Confined(fs, gs, touched, {to.Parent()}) && Accepted(to.rel)
    ensures Confined(fs, gs, touched, {to.Target()})
  {
    SpotParts(to);
    forall p | OnWay(p, {to.Parent()})
      ensures OnWay(p, {to.Target()})
    {
      assert to.Target() in {to.Target()} && p <= to.Target();
    }
  }

  /** Changes confined to a version's two files leave an existing current file alone. */
  lemma ConfinedTo(fs: Files, gs: Files, touched: set<Path>, src: Path, to: Spot)
    requires Confined(fs, gs, touched, {to.Target()}) && touched <= {to.Temp(), to.Target()}
    ensures Confined(fs, gs, {to.Target(), to.Temp()}, {to.Target()})
    ensures touched <= {to.Temp()} ==>
      Confined(fs, gs, {to.Temp()}, {to.Target()}) && (to.Target() != to.Temp() ==> SameFile(fs, gs, to.Target()))
    ensures src !in touched && src in fs ==> Get(gs, src) == Get(fs, src)
  {
  }

  /** When move_to_trash has no reason in the files to fail. */
  ghost predicate TrashWorks(fs: Files, root: text, rel: text, stamp: text) {
    var src, to := Current(rel).Target(), Trash(stamp, rel);
    Accepted(rel) && Located(root, Current(rel)).Some? &&
    (src in fs ==>
      Located(root, to).Some? && Makeable(fs, to.Parent()) &&
        Succeeds(Rename(src, to.Target()), WithDirs(fs, to.Parent())))
  }

  /** The files after a successful move_to_trash. */
  ghost function Trashed(fs: Files, rel: text, stamp: text): Files {
    var src, to := Current(rel).Target(), Trash(stamp, rel);
    if src in fs then Moved(WithDirs(fs, to.Parent()), src, to.Target()) else fs
  }

  /** move_to_trash: the current node goes, with everything under it, to the trash of this second. */
  method MoveToTrash(disk: Disk, root: text, rel: text, stamp: text) returns (ok: bool)
    requires disk.Valid() && disk.locked
    modifies disk
    ensures disk.Continues()
    ensures ok ==> Accepted(rel) && disk.files == Trashed(old(disk.files), rel, stamp)
    ensures ok && Current(rel).Target() in old(disk.files) ==>
      Succeeds(Rename(Current(rel).Target(), Trash(stamp, rel).Target()),
        WithDirs(old(disk.files), Trash(stamp, rel).Parent()))
    ensures !ok ==> Confined(old(disk.files), disk.files, {}, {Trash(stamp, rel).Parent()})
    ensures !disk.faulted ==> (ok <==> TrashWorks(old(disk.files), root, rel, stamp))
  {
    hide Disciplined, Play, Tree, Confined, Makeable, Accepted, Located, WithDirs, Moved, Succeeds;
    hide Spot.Target, Spot.Temp, Spot.Parent;
    ghost var fs := disk.files;
    var from, to := Current(rel), Trash(stamp, rel);
    ConfinedRefl(fs, {}, {to.Parent()});
    AreasDiffer(stamp, rel);
    if !Accepted(rel) || Located(root, from).None? {
      return false;
    }
    var src := disk.Look(from.Target());
    if src.None? {
      return true;
    }
    if Located(root, to).None? {
      return false;
    }
    ok := SafeRename(disk, from.Target(), to.Target(), to.Parent());
  }
}
