/** The files under the backup directory and the system calls that change them. */
module FileTree {
  import opened Bytes

  // ---- Files ------------------------------------------------------------------------------------

  /** Entry names from the backup root down. */
  type Path = seq<text>
  datatype Node = File(content: text) | Dir
  type Files = map<Path, Node>

  /** The largest value of off_t. */
  const MAX_OFFSET := 0x7FFF_FFFF_FFFF_FFFF

  function Get(fs: Files, p: Path): Option<Node> { if p in fs then Some(fs[p]) else None }

  predicate IsFile(fs: Files, p: Path) { p in fs && fs[p].File? }
  predicate IsDir(fs: Files, p: Path) { p in fs && fs[p].Dir? }

  /** The bytes of a file, none if there is no such file. */
  function Content(fs: Files, p: Path): text { if IsFile(fs, p) then fs[p].content else [] }

  predicate ParentIsDir(fs: Files, p: Path) { p != [] && IsDir(fs, p[..|p| - 1]) }

  /** Every entry is in a directory, and file sizes are representable. */
  ghost predicate Tree(fs: Files) {
    && IsDir(fs, [])
    && (forall p :: p in fs && p != [] ==> ParentIsDir(fs, p))
    && (forall p :: IsFile(fs, p) ==> |fs[p].content| <= MAX_OFFSET)
  }

  function Zeros(n: nat): text { seq(n, _ => 0) }

  /** A file after pwrite: bytes behind the old end that nobody wrote read as zero. */
  function Overlay(c: text, offset: nat, data: text): text {
    if data == [] then c
    else if offset > |c| then c + Zeros(offset - |c|) + data
    else c[..offset] + data + c[Min(offset + |data|, |c|)..]
  }

  lemma OverlayAt(c: text, offset: nat, data: text, i: nat)
    requires data != [] && i < |Overlay(c, offset, data)|
    ensures |Overlay(c, offset, data)| == if offset + |data| > |c| then offset + |data| else |c|
    ensures Overlay(c, offset, data)[i] ==
      if offset <= i < offset + |data| then data[i - offset] else if i < |c| then c[i] else 0
  {
  }

  lemma OverlayAtEnd(c: text, data: text)
    ensures Overlay(c, |c|, data) == c + data
  {
  }

  // ---- System calls ---------------------------------------------------------------------------------

  datatype Op =
    | Mkdir(path: Path)
    | Create(path: Path, truncate: bool)
    | Write(path: Path, offset: nat, data: text)
    | Rename(path: Path, to: Path)
    | Unlink(path: Path)

  predicate EmptyBelow(fs: Files, p: Path) { forall x :: x in fs ==> !(p < x) }

  /** When the call has no reason in the files themselves to fail. */
  predicate Succeeds(op: Op, fs: Files) {
    match op
    case Mkdir(p) => p !in fs && ParentIsDir(fs, p)
    case Create(p, _) => if p in fs then fs[p].File? else ParentIsDir(fs, p)
    case Write(p, offset, data) => IsFile(fs, p) && offset + |data| <= MAX_OFFSET
    case Unlink(p) => IsFile(fs, p)
    case Rename(p, q) =>
      && p in fs && ParentIsDir(fs, q)
      && (p == q || (!(p <= q) && (q in fs ==> if fs[p].File? then fs[q].File? else fs[q].Dir? && EmptyBelow(fs, q))))
  }

  /** Where the node at `y` was before `p` was renamed to `q`. */
  function Back(p: Path, q: Path, y: Path): Path { if q <= y then p + y[|q|..] else y }

  function Forth(p: Path, q: Path, x: Path): Path { if p <= x then q + x[|p|..] else x }

  lemma BackOfForth(p: Path, q: Path, x: Path)
    ensures p <= x ==> q <= Forth(p, q, x) && Back(p, q, Forth(p, q, x)) == x
    ensures q <= x ==> p <= Back(p, q, x) && Forth(p, q, Back(p, q, x)) == x
  {
    if p <= x {
      assert (q + x[|p|..])[|q|..] == x[|p|..];
    }
    if q <= x {
      assert (p + x[|q|..])[|p|..] == x[|q|..];
    }
  }

  /** Everything at or under `p` moves to the same place at or under `q`. */
  function Moved(fs: Files, p: Path, q: Path): Files {
    var paths := set x | x in fs && p <= x :: Forth(p, q, x);
    assert forall x :: p <= x ==> Back(p, q, Forth(p, q, x)) == x by {
      forall x ensures p <= x ==> Back(p, q, Forth(p, q, x)) == x { BackOfForth(p, q, x); }
    }
    (map x | x in fs && !(p <= x) && !(q <= x) :: fs[x]) + map y | y in paths :: fs[Back(p, q, y)]
  }

  lemma MovedAt(fs: Files, p: Path, q: Path, y: Path)
    ensures Get(Moved(fs, p, q), y) ==
      if q <= y && Back(p, q, y) in fs then Some(fs[Back(p, q, y)]) else if p <= y || q <= y then None else Get(fs, y)
  {
    BackOfForth(p, q, y);
    forall x | p <= x
      ensures q <= Forth(p, q, x) && Back(p, q, Forth(p, q, x)) == x
    {
      BackOfForth(p, q, x);
    }
  }

  function Effect(op: Op, fs: Files): Files
    requires Succeeds(op, fs)
  {
    match op
    case Mkdir(p) => fs[p := Dir]
    case Create(p, truncate) => if p in fs && !truncate then fs else fs[p := File([])]
    case Write(p, offset, data) => fs[p := File(Overlay(fs[p].content, offset, data))]
    case Unlink(p) => fs - {p}
    case Rename(p, q) =>
      if p == q then fs else Moved(fs, p, q)
  }

  /** Putting a directory where nothing was, or a file where no directory is. */
  lemma PutKeepsTree(fs: Files, p: Path, node: Node)
    requires Tree(fs) && ParentIsDir(fs, p) && !IsDir(fs, p)
    requires if node.Dir? then p !in fs else |node.content| <= MAX_OFFSET
    ensures Tree(fs[p := node])
  {
    var gs := fs[p := node];
    forall x | x in gs && x != []
      ensures ParentIsDir(gs, x)
    {
      assert x in fs ==> ParentIsDir(fs, x);
    }
    assert forall x :: IsFile(gs, x) && x != p ==> IsFile(fs, x);
  }

  /** Every system call keeps the tree a tree. */
  lemma EffectKeepsTree(op: Op, fs: Files)
    requires Tree(fs) && Succeeds(op, fs)
    ensures Tree(Effect(op, fs))
  {
    hide Tree;
    var p := op.path;
    FileHasParent(fs, p);
    match op
    case Unlink(_) => UnlinkKeepsTree(fs, p);
    case Rename(_, q) =>
      if p != q {
        RenameKeepsTree(p, q, fs);
      }
    case Mkdir(_) => PutKeepsTree(fs, p, Dir);
    case Create(_, truncate) => PutKeepsTree(fs, p, File([]));
    case Write(_, offset, data) => PutKeepsTree(fs, p, File(Overlay(fs[p].content, offset, data)));
  }

  lemma FileHasParent(fs: Files, p: Path)
    requires Tree(fs)
    ensures IsFile(fs, p) ==> ParentIsDir(fs, p) && |fs[p].content| <= MAX_OFFSET
  {
  }

  lemma UnlinkKeepsTree(fs: Files, p: Path)
    requires Tree(fs) && IsFile(fs, p)
    ensures Tree(fs - {p})
  {
    forall x | x in fs - {p} && x != []
      ensures ParentIsDir(fs - {p}, x)
    {
      assert ParentIsDir(fs, x);
    }
    assert forall x :: IsFile(fs - {p}, x) ==> IsFile(fs, x);
  }

  lemma RenameKeepsTree(p: Path, q: Path, fs: Files)
    requires Tree(fs) && Succeeds(Rename(p, q), fs) && p != q
    ensures Tree(Moved(fs, p, q))
  {
    hide Moved;
    MovedAt(fs, p, q, []);
    forall x | x in Moved(fs, p, q) && x != []
      ensures ParentIsDir(Moved(fs, p, q), x)
    {
      RenameKeepsParent(p, q, fs, x);
    }
    forall x | IsFile(Moved(fs, p, q), x)
      ensures |Moved(fs, p, q)[x].content| <= MAX_OFFSET
    {
      MovedAt(fs, p, q, x);
      assert IsFile(fs, x) || IsFile(fs, Back(p, q, x));
    }
  }

  lemma BackOfParent(p: Path, q: Path, x: Path)
    requires x != [] && q <= x[..|x| - 1]
    ensures Back(p, q, x) != [] && Back(p, q, x)[..|Back(p, q, x)| - 1] == Back(p, q, x[..|x| - 1])
  {
  }

  lemma RenameKeepsParent(p: Path, q: Path, fs: Files, x: Path)
    requires Tree(fs) && ParentIsDir(fs, q) && !(p <= q)
    requires x in Moved(fs, p, q) && x != []
    ensures ParentIsDir(Moved(fs, p, q), x)
  {
    hide Moved, Back;
    var up := x[..|x| - 1];
    MovedAt(fs, p, q, x);
    MovedAt(fs, p, q, up);
    if q <= up {
      BackOfParent(p, q, x);
      assert ParentIsDir(fs, Back(p, q, x));
    } else if q <= x {
      assert q == x;
    } else {
      assert ParentIsDir(fs, x);
    }
  }

  // ---- Directories on the way --------------------------------------------------------------------------------

  /** The files after mkdir of every missing directory down to `p`. */
  function WithDirs(fs: Files, p: Path): Files {
    if p == [] then fs
    else
      var up := WithDirs(fs, p[..|p| - 1]);
      if p in up then up else up[p := Dir]
  }

  /** No file is in the way. */
  ghost predicate Makeable(fs: Files, p: Path) { forall k :: 0 <= k < |p| ==> !IsFile(fs, p[..k]) }

  lemma {:induction false} WithDirsAt(fs: Files, p: Path, x: Path)
    ensures Get(WithDirs(fs, p), x) == if x !in fs && x <= p && x != [] then Some(Dir) else Get(fs, x)
  {
    if p != [] {
      WithDirsAt(fs, p[..|p| - 1], x);
      WithDirsAt(fs, p[..|p| - 1], p);
      assert x <= p ==> x == p || x <= p[..|p| - 1];
    }
  }

  lemma {:induction false} NoDirsMissing(fs: Files, p: Path)
    requires forall k :: 0 < k <= |p| ==> p[..k] in fs
    ensures WithDirs(fs, p) == fs
  {
    if p != [] {
      var up := p[..|p| - 1];
      assert forall k :: 0 < k <= |up| ==> up[..k] == p[..k];
      assert p[..|p|] == p;
      NoDirsMissing(fs, up);
    }
  }

  lemma {:induction false} NothingBelow(fs: Files, p: Path, y: Path)
    requires Tree(fs) && !IsDir(fs, p) && p < y
    ensures y !in fs
    decreases |y|
  {
    if y in fs {
      var up := y[..|y| - 1];
      assert ParentIsDir(fs, y);
      assert up == p || p < up;
      if p < up {
        NothingBelow(fs, p, up);
      }
    }
  }

  lemma {:induction false} AncestorsAreDirs(fs: Files, p: Path, k: nat)
    requires Tree(fs) && IsDir(fs, p) && k <= |p|
    ensures IsDir(fs, p[..k])
    decreases |p|
  {
    if k < |p| {
      var up := p[..|p| - 1];
      assert ParentIsDir(fs, p);
      AncestorsAreDirs(fs, up, k);
      assert up[..k] == p[..k];
    } else {
      assert p[..k] == p;
    }
  }

  /** Renaming a file changes two entries. */
  lemma RenameFile(fs: Files, p: Path, q: Path)
    requires Tree(fs) && Succeeds(Rename(p, q), fs) && IsFile(fs, p) && p != q
    ensures Effect(Rename(p, q), fs) == (fs - {p})[q := fs[p]]
  {
    var gs, want := Effect(Rename(p, q), fs), (fs - {p})[q := fs[p]];
    forall y
      ensures Get(gs, y) == Get(want, y)
    {
      RenameFileAt(fs, p, q, y);
    }
    SameFiles(gs, want);
  }

  lemma RenameFileAt(fs: Files, p: Path, q: Path, y: Path)
    requires Tree(fs) && ParentIsDir(fs, q) && !IsDir(fs, q) && !(p <= q) && IsFile(fs, p)
    ensures Get(Moved(fs, p, q), y) == if y == q then Some(fs[p]) else if y == p then None else Get(fs, y)
  {
    hide Moved;
    MovedAt(fs, p, q, y);
    if q < y {
      NothingBelow(fs, q, y);
      assert p < Back(p, q, y);
      NothingBelow(fs, p, Back(p, q, y));
    } else if p < y {
      NothingBelow(fs, p, y);
    } else if y == q {
      assert Back(p, q, y) == p;
    }
  }

  lemma SameFiles(fs: Files, gs: Files)
    requires forall y :: Get(fs, y) == Get(gs, y)
    ensures fs == gs
  {
    forall y
      ensures y in fs <==> y in gs
      ensures y in fs ==> fs[y] == gs[y]
    {
      assert Get(fs, y) == Get(gs, y);
    }
  }

  // ---- What a stretch of work may have changed -------------------------------------------------------------

  ghost predicate OnWay(p: Path, ways: set<Path>) { exists w :: w in ways && p <= w }

  /** Outside `touched` nothing changed, except that missing directories on the ways to `ways` were made. */
  ghost predicate Confined(fs: Files, gs: Files, touched: set<Path>, ways: set<Path>) {
    forall p :: p !in touched ==> Get(gs, p) == Get(fs, p) || (p !in fs && Get(gs, p) == Some(Dir) && OnWay(p, ways))
  }

  /** The same file in both, or no file in either. */
  ghost predicate SameFile(fs: Files, gs: Files, x: Path) {
    if IsFile(fs, x) then Get(gs, x) == Get(fs, x) else !IsFile(gs, x)
  }

  lemma Untouched(fs: Files, gs: Files, touched: set<Path>, ways: set<Path>, x: Path)
    requires Confined(fs, gs, touched, ways) && x !in touched
    ensures SameFile(fs, gs, x)
  {
  }

  lemma ConfinedTrans(fs: Files, gs: Files, hs: Files, a: set<Path>, b: set<Path>, v: set<Path>, w: set<Path>)
    requires Confined(fs, gs, a, v) && Confined(gs, hs, b, w)
    ensures Confined(fs, hs, a + b, v + w)
  {
    WaysWiden(v, v + w);
    WaysWiden(w, v + w);
  }

  lemma WaysWiden(v: set<Path>, w: set<Path>)
    requires v <= w
    ensures forall p :: OnWay(p, v) ==> OnWay(p, w)
  {
  }

  lemma ConfinedRefl(fs: Files, touched: set<Path>, ways: set<Path>)
    ensures Confined(fs, fs, touched, ways)
  {
  }

  lemma ConfinedWider(fs: Files, gs: Files, a: set<Path>, b: set<Path>, v: set<Path>, w: set<Path>)
    requires Confined(fs, gs, a, v) && a <= b && v <= w
    ensures Confined(fs, gs, b, w)
  {
    WaysWiden(v, w);
  }

  lemma ConfinedWrite(fs: Files, gs: Files, p: Path, node: Node, ways: set<Path>)
    requires Confined(fs, gs, {p}, ways)
    ensures Confined(fs, gs[p := node], {p}, ways)
  {
  }

  // ---- Moves below new directories ---------------------------------------------------------------------------

  lemma MadeSame(fs: Files, way: Path, x: Path)
    ensures SameFile(fs, WithDirs(fs, way), x)
  {
    WithDirsAt(fs, way, x);
  }

  /** A move below new directories leaves what is neither at its source nor at its destination. */
  lemma MoveLeaves(fs: Files, way: Path, src: Path, dst: Path, x: Path)
    ensures !(src <= x) && !(dst <= x) ==> SameFile(fs, Moved(WithDirs(fs, way), src, dst), x)
  {
    hide Moved, WithDirs;
    MovedAt(WithDirs(fs, way), src, dst, x);
    MadeSame(fs, way, x);
  }

  /** What is at or under the source is at the destination afterwards. */
  lemma MoveBrings(fs: Files, way: Path, src: Path, dst: Path, x: Path)
    requires dst <= x
    ensures var gs := Moved(WithDirs(fs, way), src, dst);
      if IsFile(fs, Back(src, dst, x)) then Get(gs, x) == Get(fs, Back(src, dst, x)) else !IsFile(gs, x)
  {
    hide Moved, WithDirs, Back;
    MovedAt(WithDirs(fs, way), src, dst, x);
    MadeSame(fs, way, Back(src, dst, x));
  }

  lemma MoveTakes(fs: Files, way: Path, src: Path, dst: Path, x: Path)
    requires src <= x && !(dst <= x)
    ensures Get(Moved(WithDirs(fs, way), src, dst), x) == None
  {
    hide Moved, WithDirs, Back;
    MovedAt(WithDirs(fs, way), src, dst, x);
  }
}
