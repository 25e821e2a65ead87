/** Old content survives overwriting and deleting: the versioned store over whole runs. */
module History {
  import opened Bytes
  import opened Wire
  import opened Paths
  import opened FileTree
  import opened Store
  import opened Server
  import opened Connection
  import opened Serial
  import opened Threads

  // ---- Where content is kept -----------------------------------------------------------------------------

  /** In `current`, in the version directory of a stamp, or in its trash directory. */
  datatype Shelf = Now | Old(stamp: text) | Gone(stamp: text) {
    function Area(): Path {
      match this
      case Now => [CURRENT]
      case Old(t) => [VERSIONS, t]
      case Gone(t) => [TRASH, t]
    }

    function Place(p: Path): Path { Area() + p }
  }

  ghost predicate Holds(fs: Files, h: Shelf, p: Path, c: text) { Get(fs, h.Place(p)) == Some(File(c)) }

  /** The content is at this path on some shelf. */
  ghost predicate Kept(fs: Files, p: Path, c: text) { exists h :: Holds(fs, h, p, c) }

  /** The content is at this path on some other shelf. */
  ghost predicate KeptBut(fs: Files, p: Path, c: text, but: Shelf) { exists h :: h != but && Holds(fs, h, p, c) }

  lemma KeptThere(fs: Files, h: Shelf, p: Path, c: text)
    ensures Holds(fs, h, p, c) ==> Kept(fs, p, c)
    ensures Kept(fs, p, c) ==> KeptBut(fs, p, c, h) || Holds(fs, h, p, c)
    ensures KeptBut(fs, p, c, h) ==> Kept(fs, p, c)
  {
  }

  ghost predicate EndsInSyncing(n: text) { |n| >= |SYNCING| && n[|n| - |SYNCING|..] == SYNCING }

  /** Not the name of a staging file. */
  ghost predicate Lasting(p: Path) { p != [] && !EndsInSyncing(p[|p| - 1]) }

  lemma StagingNames(spot: Spot, area: Path, p: Path)
    requires Accepted(spot.rel) && Lasting(p)
    ensures spot.Temp() != area + p
  {
    hide Accepted, Dirname, Basename;
    SpotParts(spot);
    var temp, n := spot.Temp(), Basename(spot.rel) + SYNCING;
    assert temp[|temp| - 1] == n && n[|n| - |SYNCING|..] == SYNCING;
    assert (area + p)[|area + p| - 1] == p[|p| - 1];
  }

  /** Different places are different, and shelves do not contain one another. */
  lemma PlacesApart(h: Shelf, p: Path, k: Shelf, q: Path)
    ensures h.Place(p) == k.Place(q) ==> h == k && p == q
    ensures h != k ==> !(h.Place(p) <= k.Place(q))
    ensures h.Place(p) <= h.Place(q) <==> p <= q
  {
    ShelvesApart(h, p, k, q);
    SamePlace(h, p, q);
    SamePlace(h, q, p);
  }

  lemma ShelvesApart(h: Shelf, p: Path, k: Shelf, q: Path)
    ensures h != k ==> !(h.Place(p) <= k.Place(q))
  {
    AreaNames();
    var x, y := h.Place(p), k.Place(q);
    assert x[0] == h.Area()[0] && y[0] == k.Area()[0];
    assert !h.Now? && !k.Now? ==> x[1] == h.stamp && y[1] == k.stamp;
  }

  lemma SamePlace(h: Shelf, p: Path, q: Path)
    ensures h.Place(p) <= h.Place(q) <==> p <= q
    ensures h.Place(p) == h.Place(q) ==> p == q
  {
    var n, x, y := |h.Area()|, h.Place(p), h.Place(q);
    assert x[n..] == p && y[n..] == q;
    if p <= q {
      assert y == x + q[|p|..];
    }
    if x <= y {
      assert q == p + y[|x|..];
    }
  }

  lemma AreaNames()
    ensures CURRENT != VERSIONS && VERSIONS != TRASH && CURRENT != TRASH
  {
  }

  /** On every shelf the same file, or on none. */
  ghost predicate Unmoved(fs: Files, gs: Files, p: Path) { forall h: Shelf :: SameFile(fs, gs, h.Place(p)) }

  lemma UnmovedKeeps(fs: Files, gs: Files, p: Path, c: text)
    requires Unmoved(fs, gs, p)
    ensures Kept(gs, p, c) <==> Kept(fs, p, c)
  {
    forall h: Shelf
      ensures Holds(gs, h, p, c) <==> Holds(fs, h, p, c)
    {
      assert SameFile(fs, gs, h.Place(p));
    }
  }

  /** The file in `current` went to the shelf `to`, and nothing else of the path moved. */
  ghost predicate Shelved(fs: Files, gs: Files, p: Path, to: Shelf) {
    && Get(gs, to.Place(p)) == Get(fs, Now.Place(p))
    && forall h: Shelf :: h != Now && h != to ==> SameFile(fs, gs, h.Place(p))
  }

  /** What is lost is exactly what the shelf held before, unless it is on another one too. */
  lemma ShelvedKeeps(fs: Files, gs: Files, p: Path, to: Shelf, c: text)
    requires Shelved(fs, gs, p, to) && !to.Now? && IsFile(fs, Now.Place(p))
    ensures Kept(gs, p, c) <==> KeptBut(fs, p, c, to) || Holds(gs, Now, p, c)
  {
    assert Holds(gs, to, p, c) <==> Holds(fs, Now, p, c);
    forall h: Shelf | h != Now && h != to
      ensures Holds(gs, h, p, c) <==> Holds(fs, h, p, c)
    {
      assert SameFile(fs, gs, h.Place(p));
    }
  }

  /** Only what is in `current` changed. */
  lemma ReplacedKeeps(fs: Files, gs: Files, p: Path, c: text)
    requires forall h: Shelf :: h != Now ==> SameFile(fs, gs, h.Place(p))
    ensures Kept(gs, p, c) <==> KeptBut(fs, p, c, Now) || Holds(gs, Now, p, c)
  {
    forall h: Shelf | h != Now
      ensures Holds(gs, h, p, c) <==> Holds(fs, h, p, c)
    {
      assert SameFile(fs, gs, h.Place(p));
    }
  }

  // ---- Which requests spare which content --------------------------------------------------------------------

  /** The request is about the file that is in `current` at this path. */
  ghost predicate Hits(fs: Files, rel: text, p: Path) { p == Names(rel) && IsFile(fs, Current(rel).Target()) }

  /**
   * When kept content stays kept whatever the request brings: it must not be on the one shelf the
   * request saves the current file to only. A large upload whose backup cannot work saves nothing,
   * and one with faults may or may not; a rename saves nothing of what it replaces.
   */
  ghost predicate Spares(fs: Files, root: text, r: Request, p: Path, c: text) {
    match r.job
    case Idle => Kept(fs, p, c)
    case Begin(h, rel, _) =>
      if Hits(fs, rel, p) && !IsDirMode(h.mode) then KeptBut(fs, p, c, Old(r.stamp)) else Kept(fs, p, c)
    case Blocks(_, rel, _) =>
      if !Hits(fs, rel, p) then Kept(fs, p, c)
      else if !r.clean then exists h :: h != Now && h != Old(r.stamp) && Holds(fs, h, p, c)
      else KeptBut(fs, p, c, if BackupWorks(fs, root, rel, r.stamp) then Old(r.stamp) else Now)
    case Delete(rel) => if Hits(fs, rel, p) then KeptBut(fs, p, c, Gone(r.stamp)) else Kept(fs, p, c)
    case Move(payload) => if Moves(root, payload, p) then KeptBut(fs, p, c, Now) else Kept(fs, p, c)
  }

  /** The rename moves the path away, or puts something there. */
  ghost predicate Moves(root: text, payload: text, p: Path) {
    Renamable(root, payload) &&
    var (a, b) := SplitRename(payload).value; Names(a) != Names(b) && (Names(a) <= p || Names(b) <= p)
  }

  /** The content a successful request puts at the path in `current`. */
  ghost predicate Brings(fs: Files, root: text, r: Request, p: Path, c: text) {
    match r.job
    case Begin(h, rel, input) =>
      p == Names(rel) && !IsDirMode(h.mode) && c == Assemble([], Receive(input, h.totalHash).blocks)
    case Blocks(h, rel, input) =>
      p == Names(rel) && c == Assemble(Content(fs, Current(rel).Temp()), ReceiveFrom(h, input).blocks)
    case Move(payload) =>
      Moves(root, payload, p) &&
      var (a, b) := SplitRename(payload).value;
      Names(b) <= p && Holds(fs, Now, Back(Names(a), Names(b), p), c)
    case _ => false
  }

  // ---- Directories -------------------------------------------------------------------------------------------

  /** Making directories moves no file. */
  lemma DirsMoveNothing(fs: Files, gs: Files, ways: set<Path>, p: Path)
    requires Confined(fs, gs, {}, ways)
    ensures Unmoved(fs, gs, p)
  {
    forall h: Shelf
      ensures SameFile(fs, gs, h.Place(p))
    {
      Untouched(fs, gs, {}, ways, h.Place(p));
    }
  }

  // ---- Uploads -----------------------------------------------------------------------------------------------

  /** Apart from its own path in `current` and in the version directory, an upload moves no lasting file. */
  lemma UploadTouches(fs: Files, gs: Files, rel: text, stamp: text, touched: set<Path>, h: Shelf, p: Path)
    requires Confined(fs, gs, touched, {Current(rel).Parent(), Version(stamp, rel).Target()}) && Accepted(rel)
    requires Lasting(p)
    requires touched <= {Current(rel).Temp(), Current(rel).Target(), Version(stamp, rel).Target(),
      Version(stamp, rel).Temp()}
    ensures p != Names(rel) || (h != Now && h != Old(stamp)) ==> SameFile(fs, gs, h.Place(p))
    ensures p == Names(rel) && h == Now && Current(rel).Target() !in touched ==> SameFile(fs, gs, h.Place(p))
  {
    hide Accepted, Lasting, Names, Confined;
    StagingNames(Current(rel), h.Area(), p);
    StagingNames(Version(stamp, rel), h.Area(), p);
    PlacesApart(h, p, Now, Names(rel));
    PlacesApart(h, p, Old(stamp), Names(rel));
    if h.Place(p) !in touched {
      Untouched(fs, gs, touched, {Current(rel).Parent(), Version(stamp, rel).Target()}, h.Place(p));
    }
  }

  /** What an upload, small or large, leaves on the shelves. */
  lemma UploadShelves(fs: Files, gs: Files, rel: text, stamp: text, ok: bool, content: text, p: Path)
    requires Accepted(rel) && Lasting(p)
    requires if ok then Committed(fs, gs, Current(rel), Version(stamp, rel), content)
      else NotCommitted(fs, gs, Current(rel), Version(stamp, rel))
    ensures p != Names(rel) ==> Unmoved(fs, gs, p)
    ensures p == Names(rel) ==> forall h: Shelf :: h != Now && h != Old(stamp) ==> SameFile(fs, gs, h.Place(p))
    ensures p == Names(rel) && ok ==> Get(gs, Now.Place(p)) == Some(File(content))
    ensures p == Names(rel) && !ok ==> SameFile(fs, gs, Now.Place(p))
  {
    hide Accepted, Lasting, Names, Confined;
    var at, v := Current(rel), Version(stamp, rel);
    var touched := if ok then {at.Temp(), at.Target(), v.Target(), v.Temp()} else {at.Temp(), v.Target(), v.Temp()};
    forall h: Shelf
      ensures p != Names(rel) || (h != Now && h != Old(stamp)) ==> SameFile(fs, gs, h.Place(p))
    {
      UploadTouches(fs, gs, rel, stamp, touched, h, p);
    }
    if p == Names(rel) && !ok {
      StagingNames(at, Now.Area(), p);
      PlacesApart(Now, p, Old(stamp), p);
      StagingNames(v, Now.Area(), p);
      UploadTouches(fs, gs, rel, stamp, touched, Now, p);
    }
  }

  lemma UploadSpares(fs: Files, gs: Files, root: text, r: Request, p: Path, c: text)
    requires r.job.Begin? && !IsDirMode(r.job.header.mode) && Tree(fs) && Done(fs, gs, root, r) && Lasting(p)
    ensures r.ok ==> (Kept(gs, p, c) <==> Spares(fs, root, r, p, c) || Brings(fs, root, r, p, c))
    ensures Spares(fs, root, r, p, c) ==> Kept(gs, p, c)
  {
    hide Accepted, Lasting, Names, Confined, Receive, Assemble, Gate, UploadWorks, Committed, NotCommitted, Kept;
    hide KeptBut, SameFile, Tree, CurrentPath;
    var rel, saved := r.job.rel, Old(r.stamp);
    if PathFits(root, rel) {
      FitsIsAccepted(root, rel);
      var u := Receive(r.job.input, r.job.header.totalHash);
      UploadShelves(fs, gs, rel, r.stamp, r.ok, Assemble([], u.blocks), p);
      if p != Names(rel) {
        UnmovedKeeps(fs, gs, p, c);
      } else if r.ok {
        CommitSpares(fs, gs, p, saved, c);
      } else {
        FailureSpares(fs, gs, p, saved, c);
      }
    } else {
      UnmovedRefl(fs, p);
      UnmovedKeeps(fs, gs, p, c);
      KeptThere(fs, saved, p, c);
    }
  }

  lemma UnmovedRefl(fs: Files, p: Path)
    ensures Unmoved(fs, fs, p)
  {
  }

  /** The current file was replaced and saved, or there was none. */
  lemma CommitSpares(fs: Files, gs: Files, p: Path, saved: Shelf, c: text)
    requires saved.Old? && forall h: Shelf :: h != Now && h != saved ==> SameFile(fs, gs, h.Place(p))
    requires if IsFile(fs, Now.Place(p)) then Get(gs, saved.Place(p)) == Get(fs, Now.Place(p))
      else SameFile(fs, gs, saved.Place(p))
    ensures Kept(gs, p, c) <==>
      (if IsFile(fs, Now.Place(p)) then KeptBut(fs, p, c, saved) else Kept(fs, p, c)) || Holds(gs, Now, p, c)
  {
    hide Kept, KeptBut, SameFile;
    if IsFile(fs, Now.Place(p)) {
      ShelvedKeeps(fs, gs, p, saved, c);
    } else {
      ReplacedKeeps(fs, gs, p, c);
      KeptThere(fs, Now, p, c);
    }
  }

  /** The current file stayed, whatever became of its backup. */
  lemma FailureSpares(fs: Files, gs: Files, p: Path, saved: Shelf, c: text)
    requires saved.Old? && forall h: Shelf :: h != saved ==> SameFile(fs, gs, h.Place(p))
    requires SameFile(fs, gs, saved.Place(p)) ||
      (IsFile(fs, Now.Place(p)) && Get(gs, saved.Place(p)) == Get(fs, Now.Place(p)))
    ensures (if IsFile(fs, Now.Place(p)) then KeptBut(fs, p, c, saved) else Kept(fs, p, c)) ==> Kept(gs, p, c)
  {
    forall h: Shelf | h != saved
      ensures Holds(fs, h, p, c) ==> Holds(gs, h, p, c)
    {
      assert SameFile(fs, gs, h.Place(p));
    }
    if !IsFile(fs, Now.Place(p)) {
      assert Holds(fs, saved, p, c) ==> Holds(gs, saved, p, c);
    }
  }

  /**
   * A large upload: exactly so if no call failed by itself. Otherwise the backup may have failed,
   * which the server ignores, and then the version is not written over and more may be kept.
   */
  lemma StreamSpares(fs: Files, gs: Files, root: text, r: Request, p: Path, c: text)
    requires r.job.Blocks? && Tree(fs) && Done(fs, gs, root, r) && Lasting(p)
    ensures r.ok && r.clean ==> (Kept(gs, p, c) <==> Spares(fs, root, r, p, c) || Brings(fs, root, r, p, c))
    ensures Spares(fs, root, r, p, c) ==> Kept(gs, p, c)
  {
    hide Accepted, Lasting, Names, Confined, ReceiveFrom, Assemble, Gate, StreamWorks, StreamOpens, Committed;
    hide NotCommitted, Left, Tree, CurrentPath;
    hide Kept, KeptBut, SameFile, BackupWorks;
    var rel, saved := r.job.rel, Old(r.stamp);
    if PathFits(root, rel) {
      FitsIsAccepted(root, rel);
      var content := Assemble(Content(fs, Current(rel).Temp()), ReceiveFrom(r.job.header, r.job.input).blocks);
      UploadShelves(fs, gs, rel, r.stamp, r.ok, content, p);
      if p != Names(rel) {
        UnmovedKeeps(fs, gs, p, c);
      } else {
        StreamOnShelves(fs, gs, root, r, p, c);
      }
    } else {
      UnmovedRefl(fs, p);
      UnmovedKeeps(fs, gs, p, c);
      KeptThere(fs, saved, p, c);
      KeptThere(fs, Now, p, c);
      NeitherIsKept(fs, p, c, saved);
    }
  }

  lemma NeitherIsKept(fs: Files, p: Path, c: text, saved: Shelf)
    ensures (exists h :: h != Now && h != saved && Holds(fs, h, p, c)) ==> Kept(fs, p, c)
  {
  }

  /** The backup's result is ignored: the current file was saved, or only replaced. */
  lemma StreamOnShelves(fs: Files, gs: Files, root: text, r: Request, p: Path, c: text)
    requires r.job.Blocks? && p == Names(r.job.rel)
    requires forall h: Shelf :: h != Now && h != Old(r.stamp) ==> SameFile(fs, gs, h.Place(p))
    requires !r.ok ==> SameFile(fs, gs, Now.Place(p))
    requires VersionKept(fs, gs, r.job.rel, r.stamp)
    requires var at, v := Current(r.job.rel).Target(), Version(r.stamp, r.job.rel).Target();
      && (r.ok && r.clean && IsFile(fs, at) && BackupWorks(fs, root, r.job.rel, r.stamp) ==> Get(gs, v) == Get(fs, at))
      && (r.clean && !(IsFile(fs, at) && BackupWorks(fs, root, r.job.rel, r.stamp)) ==> SameFile(fs, gs, v))
    ensures r.ok && r.clean ==> (Kept(gs, p, c) <==> Spares(fs, root, r, p, c) || Holds(gs, Now, p, c))
    ensures Spares(fs, root, r, p, c) ==> Kept(gs, p, c)
  {
    hide Kept, KeptBut, BackupWorks, Names;
    var saved := Old(r.stamp);
    KeptThere(fs, Now, p, c);
    OthersStay(fs, gs, p, saved, c);
    if r.clean && SameFile(fs, gs, saved.Place(p)) {
      ReplacedKeeps(fs, gs, p, c);
    }
    if r.ok && r.clean {
      if IsFile(fs, Now.Place(p)) && BackupWorks(fs, root, r.job.rel, r.stamp) {
        ShelvedKeeps(fs, gs, p, saved, c);
      }
    } else if !r.ok {
      FailureSpares(fs, gs, p, saved, c);
    } else if !IsFile(fs, Now.Place(p)) {
      ReplacedKeeps(fs, gs, p, c);
    }
  }

  lemma OthersStay(fs: Files, gs: Files, p: Path, saved: Shelf, c: text)
    requires forall h: Shelf :: h != Now && h != saved ==> SameFile(fs, gs, h.Place(p))
    ensures (exists h :: h != Now && h != saved && Holds(fs, h, p, c)) ==> Kept(gs, p, c)
  {
    if h :| h != Now && h != saved && Holds(fs, h, p, c) {
      assert SameFile(fs, gs, h.Place(p)) && Holds(gs, h, p, c);
    }
  }

  // ---- Deletes and renames -----------------------------------------------------------------------------------

  /** Places at and under one another go back to places. */
  lemma BackOnShelf(h: Shelf, n: Path, k: Shelf, m: Path, p: Path)
    requires m <= p
    ensures k.Place(m) <= k.Place(p) && Back(h.Place(n), k.Place(m), k.Place(p)) == h.Place(Back(n, m, p))
  {
    PlacesApart(k, m, k, p);
    assert k.Place(p)[|k.Place(m)|..] == p[|m|..];
    ConcatAssociative(h.Area(), n, p[|m|..]);
  }

  /** A rename replaces at most a file by a file: a directory finds nothing where it goes. */
  lemma NothingReplaced(fs: Files, way: Path, src: Path, dst: Path, x: Path)
    requires Tree(fs) && Succeeds(Rename(src, dst), WithDirs(fs, way)) && src != dst && dst <= x
    requires x == dst ==> !IsFile(fs, src)
    ensures !IsFile(fs, x)
  {
    hide WithDirs, Tree;
    MadeSame(fs, way, src);
    WithDirsAt(fs, way, dst);
    WithDirsAt(fs, way, x);
    if x != dst {
      if IsDir(fs, dst) {
        assert x in fs ==> x in WithDirs(fs, way) && dst < x;
      } else {
        NothingBelow(fs, dst, x);
      }
    }
  }

  lemma DeleteSpares(fs: Files, gs: Files, root: text, r: Request, p: Path, c: text)
    requires r.job.Delete? && Tree(fs) && Done(fs, gs, root, r)
    ensures r.ok ==> (Kept(gs, p, c) <==> Spares(fs, root, r, p, c))
    ensures Spares(fs, root, r, p, c) ==> Kept(gs, p, c)
  {
    hide Accepted, Names, Confined, WithDirs, Moved, Succeeds, TrashWorks, Kept, KeptBut, Tree, Dirname;
    var rel, n, gone := r.job.rel, Names(r.job.rel), Gone(r.stamp);
    var way := Trash(r.stamp, rel).Parent();
    KeptThere(fs, gone, p, c);
    if !r.ok {
      DirsMoveNothing(fs, gs, {way}, p);
      UnmovedKeeps(fs, gs, p, c);
    } else if Now.Place(n) !in fs {
      UnmovedRefl(fs, p);
      UnmovedKeeps(fs, gs, p, c);
    } else {
      TrashSpares(fs, way, n, r.stamp, p, c);
    }
  }

  /** What is at or under the deleted path goes to the trash, and the rest stays. */
  lemma TrashSpares(fs: Files, way: Path, n: Path, stamp: text, p: Path, c: text)
    requires Tree(fs) && Now.Place(n) in fs && Succeeds(Rename(Now.Place(n), Gone(stamp).Place(n)), WithDirs(fs, way))
    ensures var gs := Moved(WithDirs(fs, way), Now.Place(n), Gone(stamp).Place(n));
      Kept(gs, p, c) <==> if p == n && IsFile(fs, Now.Place(n)) then KeptBut(fs, p, c, Gone(stamp)) else Kept(fs, p, c)
  {
    hide Moved, WithDirs, Kept, KeptBut, Tree, SameFile;
    var gone := Gone(stamp);
    var src, dst := Now.Place(n), gone.Place(n);
    var gs := Moved(WithDirs(fs, way), src, dst);
    forall h: Shelf
      ensures (h != Now && h != gone) || !(n <= p) ==> SameFile(fs, gs, h.Place(p))
    {
      PlacesApart(Now, n, h, p);
      PlacesApart(gone, n, h, p);
      PlacesApart(h, n, h, p);
      MoveLeaves(fs, way, src, dst, h.Place(p));
    }
    if n <= p {
      TrashedAt(fs, way, n, stamp, p);
      KeptThere(fs, gone, p, c);
      if IsFile(fs, Now.Place(p)) {
        ShelvedKeeps(fs, gs, p, gone, c);
      } else {
        SameOnBoth(fs, gs, p, gone);
        UnmovedKeeps(fs, gs, p, c);
      }
    } else {
      UnmovedKeeps(fs, gs, p, c);
    }
  }

  lemma SameOnBoth(fs: Files, gs: Files, p: Path, gone: Shelf)
    requires forall h: Shelf :: h != Now && h != gone ==> SameFile(fs, gs, h.Place(p))
    requires !IsFile(fs, Now.Place(p)) && !IsFile(gs, Now.Place(p)) && !IsFile(fs, gone.Place(p))
    requires !IsFile(gs, gone.Place(p))
    ensures Unmoved(fs, gs, p)
  {
  }

  lemma TrashedAt(fs: Files, way: Path, n: Path, stamp: text, p: Path)
    requires Tree(fs) && Now.Place(n) in fs && Succeeds(Rename(Now.Place(n), Gone(stamp).Place(n)), WithDirs(fs, way))
    requires n <= p
    ensures var gs := Moved(WithDirs(fs, way), Now.Place(n), Gone(stamp).Place(n)); var gone := Gone(stamp);
      && Get(gs, Now.Place(p)) == None
      && (if IsFile(fs, Now.Place(p)) then Get(gs, gone.Place(p)) == Get(fs, Now.Place(p))
        else !IsFile(gs, gone.Place(p)))
      && (p != n || !IsFile(fs, Now.Place(n)) ==> !IsFile(fs, gone.Place(p)))
  {
    hide Moved, WithDirs, Tree, Back;
    var gone := Gone(stamp);
    var src, dst := Now.Place(n), gone.Place(n);
    BackOnShelf(Now, n, gone, n, p);
    assert Back(n, n, p) == p by { BackToItself(n, p); }
    PlacesApart(gone, n, Now, p);
    PlacesApart(Now, n, Now, p);
    PlacesApart(gone, n, Now, n);
    MoveBrings(fs, way, src, dst, gone.Place(p));
    MoveTakes(fs, way, src, dst, Now.Place(p));
    PlacesApart(gone, n, gone, p);
    if p != n || !IsFile(fs, src) {
      NothingReplaced(fs, way, src, dst, gone.Place(p));
    }
  }

  lemma BackToItself(n: Path, p: Path)
    requires n <= p
    ensures Back(n, n, p) == p
  {
  }

  lemma RenameSpares(fs: Files, gs: Files, root: text, r: Request, p: Path, c: text)
    requires r.job.Move? && Done(fs, gs, root, r)
    ensures r.ok ==> (Kept(gs, p, c) <==> Spares(fs, root, r, p, c) || Brings(fs, root, r, p, c))
    ensures Spares(fs, root, r, p, c) ==> Kept(gs, p, c)
  {
    hide Accepted, Names, Confined, WithDirs, Moved, Succeeds, Makeable, Kept, KeptBut, SameFile, Dirname, SplitRename;
    hide CurrentPath, Holds;
    KeptThere(fs, Now, p, c);
    if Renamable(root, r.job.payload) {
      var (a, b) := SplitRename(r.job.payload).value;
      var way := Current(b).Parent();
      if r.ok && Names(a) != Names(b) {
        SamePlace(Now, Names(a), Names(b));
        MoveSpares(fs, way, Names(a), Names(b), p, c);
      } else {
        if r.ok {
          WithDirsMoveNothing(fs, way, p);
        } else {
          DirsMoveNothing(fs, gs, {way}, p);
        }
        UnmovedKeeps(fs, gs, p, c);
      }
    } else {
      UnmovedRefl(fs, p);
      UnmovedKeeps(fs, gs, p, c);
    }
  }

  lemma WithDirsMoveNothing(fs: Files, way: Path, p: Path)
    ensures Unmoved(fs, WithDirs(fs, way), p)
  {
    hide WithDirs;
    forall h: Shelf
      ensures SameFile(fs, WithDirs(fs, way), h.Place(p))
    {
      MadeSame(fs, way, h.Place(p));
    }
  }

  lemma MoveSpares(fs: Files, way: Path, n: Path, m: Path, p: Path, c: text)
    ensures var gs := Moved(WithDirs(fs, way), Now.Place(n), Now.Place(m));
      Kept(gs, p, c) <==> if m <= p then KeptBut(fs, p, c, Now) || Holds(fs, Now, Back(n, m, p), c)
        else if n <= p then KeptBut(fs, p, c, Now) else Kept(fs, p, c)
  {
    hide Moved, WithDirs, Kept, KeptBut, SameFile, Back;
    var src, dst := Now.Place(n), Now.Place(m);
    var gs := Moved(WithDirs(fs, way), src, dst);
    forall h: Shelf
      ensures h != Now || !(n <= p || m <= p) ==> SameFile(fs, gs, h.Place(p))
    {
      PlacesApart(Now, n, h, p);
      PlacesApart(Now, m, h, p);
      PlacesApart(h, n, h, p);
      PlacesApart(h, m, h, p);
      MoveLeaves(fs, way, src, dst, h.Place(p));
    }
    SamePlace(Now, n, p);
    SamePlace(Now, m, p);
    if m <= p {
      ReplacedKeeps(fs, gs, p, c);
      BackOnShelf(Now, n, Now, m, p);
      MoveBrings(fs, way, src, dst, Now.Place(p));
    } else if n <= p {
      ReplacedKeeps(fs, gs, p, c);
      MoveTakes(fs, way, src, dst, Now.Place(p));
    } else {
      UnmovedKeeps(fs, gs, p, c);
    }
  }

  // ---- Any request, any run -------------------------------------------------------------------------------------

  /**
   * What a request loses, whatever its time stamp. After a successful one, content is kept at a
   * lasting path if and only if it was kept on another shelf than the one that is written over, or
   * is what the request brings; for a large upload this holds if no call failed by itself, as an
   * upload whose backup failed does not write over the version. After any other request, a large
   * upload with such a failure among them, only one direction holds: nothing more is lost.
   */
  lemma RequestKeepsIff(fs: Files, gs: Files, root: text, r: Request, p: Path, c: text)
    requires Tree(fs) && Done(fs, gs, root, r) && Lasting(p)
    ensures r.ok && (r.job.Blocks? ==> r.clean) ==>
      (Kept(gs, p, c) <==> Spares(fs, root, r, p, c) || Brings(fs, root, r, p, c))
    ensures Spares(fs, root, r, p, c) ==> Kept(gs, p, c)
  {
    hide Kept, KeptBut, Lasting, Tree, Uploaded, Streamed, Deleted, Renamed, Confined, Receive, WithDirs, Makeable;
    hide Spot.Target, Names, BackupWorks, Moves;
    match r.job
    case Idle =>
    case Begin(h, rel, input) =>
      if IsDirMode(h.mode) {
        if PathFits(root, rel) {
          DirsMoveNothing(fs, gs, {Current(rel).Target()}, p);
        } else {
          UnmovedRefl(fs, p);
        }
        UnmovedKeeps(fs, gs, p, c);
      } else {
        UploadSpares(fs, gs, root, r, p, c);
      }
    case Blocks(h, rel, input) => StreamSpares(fs, gs, root, r, p, c);
    case Delete(rel) => DeleteSpares(fs, gs, root, r, p, c);
    case Move(payload) => RenameSpares(fs, gs, root, r, p, c);
  }

  /** If the content is kept, the request spares it. */
  ghost predicate Careful(fs: Files, root: text, r: Request, p: Path, c: text) {
    Kept(fs, p, c) ==> Spares(fs, root, r, p, c)
  }

  /** Content that is kept at some point of a run stays kept as long as the requests spare it. */
  lemma {:induction false} SparedIsKept(states: seq<Files>, requests: seq<Request>, root: text, p: Path, c: text)
    requires |states| == |requests| + 1 && Lasting(p) && Kept(states[0], p, c)
    requires forall k :: 0 <= k < |requests| ==>
      Tree(states[k]) && Done(states[k], states[k + 1], root, requests[k]) &&
        Careful(states[k], root, requests[k], p, c)
    ensures Kept(states[|requests|], p, c)
    decreases |requests|
  {
    hide Done, Kept, Lasting, Tree, Spares;
    if requests != [] {
      RequestKeepsIff(states[0], states[1], root, requests[0], p, c);
      SparedIsKept(states[1..], requests[1..], root, p, c);
    }
  }

  /**
   * The time stamp is new for the path: nothing is yet where the request would save what it
   * replaces. A large upload must be able to save, and a rename must leave the path alone.
   */
  ghost predicate Fresh(fs: Files, root: text, r: Request, p: Path) {
    match r.job
    case Idle => true
    case Begin(_, rel, _) => Version(r.stamp, rel).Target() !in fs
    case Blocks(_, rel, _) =>
      Version(r.stamp, rel).Target() !in fs &&
      (IsFile(fs, Current(rel).Target()) ==> r.clean && BackupWorks(fs, root, rel, r.stamp))
    case Delete(rel) => Trash(r.stamp, rel).Target() !in fs
    case Move(payload) => !Moves(root, payload, p)
  }

  lemma FreshIsCareful(fs: Files, root: text, r: Request, p: Path, c: text)
    requires Fresh(fs, root, r, p)
    ensures Careful(fs, root, r, p, c)
  {
    hide Kept, KeptBut, BackupWorks, Names, Moves;
    KeptThere(fs, Old(r.stamp), p, c);
    KeptThere(fs, Gone(r.stamp), p, c);
  }

  /**
   * History is kept: with fresh time stamps, whatever content was at a lasting path of `current` at
   * some point of a run of uploads, deletes, directory creations and renames elsewhere, failed ones
   * included, is at the end at that path in `current`, in a version or in the trash.
   */
  lemma HistoryIsKept(states: seq<Files>, requests: seq<Request>, root: text, i: nat, p: Path, c: text)
    requires |states| == |requests| + 1 && i < |states| && Lasting(p) && Get(states[i], [CURRENT] + p) == Some(File(c))
    requires forall k :: 0 <= k < |requests| ==>
      Tree(states[k]) && Done(states[k], states[k + 1], root, requests[k]) && Fresh(states[k], root, requests[k], p)
    ensures Kept(states[|requests|], p, c)
  {
    hide Done, Kept, Lasting, Tree, Fresh, Careful;
    KeptThere(states[i], Now, p, c);
    forall k | 0 <= k < |requests|
      ensures Careful(states[k], root, requests[k], p, c)
    {
      FreshIsCareful(states[k], root, requests[k], p, c);
    }
    SparedIsKept(states[i..], requests[i..], root, p, c);
  }

  /**
   * So it is under any interleaving of connection threads: the requests take place one after the
   * other, and if they are fresh in that order, nothing that was ever current between two of them
   * is lost.
   */
  lemma HistoryUnderConcurrency(fs: Files, run: seq<Step>, root: text, requests: seq<Request>, p: Path)
    returns (states: seq<Files>)
    requires Interleave(fs, run).Some? && AllDisciplined(run) && AllServe(fs, run, root, requests) && Holder(run).None?
    requires Tree(fs) && Lasting(p)
    ensures |states| == |SectionsOf(run)| + 1 <= |requests| + 1 && states[0] == fs
    ensures forall i :: 0 <= i < |states| - 1 ==> Done(states[i], states[i + 1], root, requests[i])
    ensures (forall i :: 0 <= i < |states| - 1 ==> Fresh(states[i], root, requests[i], p)) ==>
      forall i, c :: 0 <= i < |states| && Holds(states[i], Now, p, c) ==> Kept(Interleave(fs, run).value, p, c)
  {
    hide Done, Kept, Lasting, Tree, Fresh, AllServe, AllDisciplined, Interleave, Holder, SectionsOf;
    states := RequestsOneByOne(fs, run, root, requests);
    var n := |states| - 1;
    if forall i :: 0 <= i < n ==> Fresh(states[i], root, requests[i], p) {
      forall i, c | 0 <= i <= n && Holds(states[i], Now, p, c)
        ensures Kept(states[n], p, c)
      {
        HistoryIsKept(states, requests[..n], root, i, p, c);
      }
    }
  }

  // ---- A concrete loss --------------------------------------------------------------------------------------------

  const F: text := [102]
  const STAMP: text := [49]
  const ROOT: text := [SLASH]

  function Single(c: text): Files { map[[] := Dir, [CURRENT] := Dir, [CURRENT, F] := File(c)] }

  function After(c: text, saved: text): Files {
    map[[] := Dir, [CURRENT] := Dir, [CURRENT, F] := File(c), [VERSIONS] := Dir, [VERSIONS, STAMP] := Dir,
      [VERSIONS, STAMP, F] := File(saved)]
  }

  function Sending(c: text): Upload { Upload([Block(0, c)], Some(InitHeader(MSG_FILE_END))) }

  lemma NamesOfF()
    ensures Accepted(F) && Names(F) == [F] && Names(F + SYNCING) == [F + SYNCING] && Names(Dirname(F)) == []
  {
    ComponentsOfName(F);
    ComponentsOfName(F + SYNCING);
    assert Walk([], [F]) == [F];
    assert Walk([], [F + SYNCING]) == [F + SYNCING];
    assert Dirname(F) == [] && Components([]) == [[]];
  }

  lemma JoinFits(base: text, rel: text)
    requires rel != [] && rel[0] != SLASH && |base| + 1 + |rel| < MAX_PATH_LEN
    ensures JoinPath(base, rel).Some? && |JoinPath(base, rel).value| <= |base| + 1 + |rel|
  {
  }

  lemma PlacesOfF()
    ensures Accepted(F) && Current(F).Target() == [CURRENT, F] && Current(F).Temp() == [CURRENT, F + SYNCING]
    ensures Current(F).Parent() == [CURRENT]
    ensures var v := Version(STAMP, F);
      v.Target() == [VERSIONS, STAMP, F] && v.Temp() == [VERSIONS, STAMP, F + SYNCING] &&
      v.Parent() == [VERSIONS, STAMP]
  {
    NamesOfF();
  }

  lemma LocationsOfF()
    ensures Located(ROOT, Current(F)).Some?
    ensures Located(ROOT, Version(STAMP, F)).Some? && |Located(ROOT, Version(STAMP, F)).value| < 100
  {
    hide JoinPath;
    JoinFits(ROOT, CURRENT);
    var current := JoinPath(ROOT, CURRENT).value;
    JoinFits(current, F);
    assert Current(F).area[1..] == [];
    JoinFits(ROOT, VERSIONS);
    var versions := JoinPath(ROOT, VERSIONS).value;
    JoinFits(versions, STAMP);
    var second := JoinPath(versions, STAMP).value;
    JoinFits(second, F);
    assert Version(STAMP, F).area[1..] == [STAMP] && [STAMP][1..] == [];
    assert Located(ROOT, Version(STAMP, F)) == Located(versions, Spot([STAMP], F)) == Located(second, Spot([], F));
  }

  lemma PathsDiffer()
    ensures CURRENT != VERSIONS && F != F + SYNCING
    ensures [CURRENT, F + SYNCING] != [CURRENT, F] && [VERSIONS, STAMP, F + SYNCING] != [VERSIONS, STAMP, F]
    ensures [CURRENT, F + SYNCING] != [VERSIONS, STAMP]
  {
    assert [CURRENT, F + SYNCING][1] != [CURRENT, F][1];
    assert [VERSIONS, STAMP, F + SYNCING][2] != [VERSIONS, STAMP, F][2];
    assert [CURRENT, F + SYNCING][0] != [VERSIONS, STAMP][0];
  }

  ghost predicate Scene(fs: Files, a: text, saved: text) { fs == Single(a) || fs == After(a, saved) }

  lemma SceneAt(fs: Files, a: text, saved: text)
    requires Scene(fs, a, saved)
    ensures IsDir(fs, []) && IsDir(fs, [CURRENT]) && Get(fs, [CURRENT, F]) == Some(File(a))
    ensures [CURRENT, F + SYNCING] !in fs && [VERSIONS, STAMP, F + SYNCING] !in fs
    ensures !IsFile(fs, [VERSIONS]) && !IsFile(fs, [VERSIONS, STAMP]) && !IsDir(fs, [VERSIONS, STAMP, F])
    ensures WithDirs(fs, [CURRENT]) == fs
  {
    PathsDiffer();
    assert [CURRENT][..1] == [CURRENT];
    NoDirsMissing(fs, [CURRENT]);
  }

  lemma BackupIsPossible(fs: Files, a: text, saved: text)
    requires Scene(fs, a, saved)
    ensures BackupWorks(fs, ROOT, F, STAMP)
  {
    hide Accepted, Located, Spot.Target, Spot.Temp, Spot.Parent, Scene, WithDirs;
    PlacesOfF();
    LocationsOfF();
    SceneAt(fs, a, saved);
    PathsDiffer();
    var p, temp, target := [VERSIONS, STAMP], [VERSIONS, STAMP, F + SYNCING], [VERSIONS, STAMP, F];
    assert p[..0] == [] && p[..1] == [VERSIONS] && temp[..2] == p && target[..2] == p;
    WithDirsAt(fs, p, p);
    WithDirsAt(fs, p, temp);
    WithDirsAt(fs, p, target);
  }

  lemma SendingBrings(b: text)
    ensures Assemble([], Sending(b).blocks) == b && Gate(0, Sending(b), b)
  {
    AssembleNext([], [], Block(0, b));
    assert [] + [Block(0, b)] == [Block(0, b)];
    NothingAssembled([]);
    OverlayAtEnd([], b);
    assert [] + b == b;
  }

  lemma OverwriteIsPossible(fs: Files, a: text, saved: text, b: text)
    requires Scene(fs, a, saved)
    ensures UploadWorks(fs, ROOT, F, STAMP, Sending(b), 0)
  {
    hide Accepted, Located, Spot.Target, Spot.Temp, Spot.Parent, WithDirs, BackupWorks, Scene, Gate, Assemble;
    PlacesOfF();
    SceneAt(fs, a, saved);
    BackupIsPossible(fs, a, saved);
    SendingBrings(b);
    assert [CURRENT][..0] == [] && [CURRENT, F + SYNCING][..1] == [CURRENT];
  }

  /** Overwriting `a` by `b` works and saves `a`, whether or not a version of this second is there already. */
  lemma OverwriteWorks(fs: Files, a: text, saved: text, b: text)
    requires Scene(fs, a, saved)
    ensures Uploaded(fs, After(b, a), ROOT, F, STAMP, Sending(b), 0, true, true)
  {
    hide Accepted, Spot.Target, Spot.Temp, Spot.Parent, UploadWorks, Scene, Confined, Assemble, Gate;
    PlacesOfF();
    SceneAt(fs, a, saved);
    OverwriteIsPossible(fs, a, saved, b);
    SendingBrings(b);
    OverwriteConfined(fs, a, saved, b);
  }

  lemma OverwriteConfined(fs: Files, a: text, saved: text, b: text)
    requires Scene(fs, a, saved)
    ensures Confined(fs, After(b, a),
      {[CURRENT, F + SYNCING], [CURRENT, F], [VERSIONS, STAMP, F], [VERSIONS, STAMP, F + SYNCING]},
      {[CURRENT], [VERSIONS, STAMP, F]})
    ensures [CURRENT, F + SYNCING] !in After(b, a)
  {
    PathsDiffer();
    var target, ways := [VERSIONS, STAMP, F], {[CURRENT], [VERSIONS, STAMP, F]};
    assert target in ways && [VERSIONS] <= target && [VERSIONS, STAMP] <= target;
  }

  lemma FirstIsGone(a: text, b: text, c: text)
    requires a != b && a != c
    ensures Kept(Single(a), [F], a) && Kept(After(b, a), [F], a) && !Kept(After(c, b), [F], a)
  {
    assert Now.Place([F]) == [CURRENT, F] && Old(STAMP).Place([F]) == [VERSIONS, STAMP, F];
    KeptThere(Single(a), Now, [F], a);
    KeptThere(After(b, a), Old(STAMP), [F], a);
    forall x | IsFile(After(c, b), x)
      ensures After(c, b)[x].content != a
    {
      assert x == [CURRENT, F] || x == [VERSIONS, STAMP, F];
    }
    NowhereKept(After(c, b), [F], a);
  }

  lemma NowhereKept(fs: Files, p: Path, c: text)
    requires forall x :: IsFile(fs, x) ==> fs[x].content != c
    ensures !Kept(fs, p, c)
  {
    forall h
      ensures !Holds(fs, h, p, c)
    {
      assert IsFile(fs, h.Place(p)) ==> fs[h.Place(p)].content != c;
    }
  }

  /** Three contents within one second, no faults: the first is lost. */
  lemma OneSecondLosesContent(a: text, b: text, c: text)
    requires a != b && a != c
    ensures Uploaded(Single(a), After(b, a), ROOT, F, STAMP, Sending(b), 0, true, true)
    ensures Uploaded(After(b, a), After(c, b), ROOT, F, STAMP, Sending(c), 0, true, true)
    ensures Kept(Single(a), [F], a) && Kept(After(b, a), [F], a) && !Kept(After(c, b), [F], a)
  {
    FirstIsGone(a, b, c);
    SceneIs(a, b);
    hide *;
    OverwriteWorks(Single(a), a, a, b);
    OverwriteWorks(After(b, a), b, a, c);
  }

  lemma SceneIs(a: text, b: text)
    ensures Scene(Single(a), a, a) && Scene(After(b, a), b, a)
  {
  }

  /** `b` is current and `a` was deleted earlier in the same second; then `b` is deleted too. */
  function Twice(b: text, a: text): Files {
    map[[] := Dir, [CURRENT] := Dir, [CURRENT, F] := File(b), [TRASH] := Dir, [TRASH, STAMP] := Dir,
      [TRASH, STAMP, F] := File(a)]
  }

  function Deleting(b: text): Files {
    map[[] := Dir, [CURRENT] := Dir, [TRASH] := Dir, [TRASH, STAMP] := Dir, [TRASH, STAMP, F] := File(b)]
  }

  lemma TrashOfF()
    ensures Accepted(F) && Current(F).Target() == [CURRENT, F]
    ensures Trash(STAMP, F).Target() == [TRASH, STAMP, F] && Trash(STAMP, F).Parent() == [TRASH, STAMP]
    ensures Located(ROOT, Current(F)).Some? && Located(ROOT, Trash(STAMP, F)).Some?
  {
    NamesOfF();
    LocationsOfF();
    hide JoinPath;
    JoinFits(ROOT, TRASH);
    var trash := JoinPath(ROOT, TRASH).value;
    JoinFits(trash, STAMP);
    var second := JoinPath(trash, STAMP).value;
    JoinFits(second, F);
    assert Trash(STAMP, F).area[1..] == [STAMP] && [STAMP][1..] == [];
    assert Located(ROOT, Trash(STAMP, F)) == Located(trash, Spot([STAMP], F)) == Located(second, Spot([], F));
  }

  lemma TwiceIsTree(b: text, a: text)
    requires |a| <= MAX_OFFSET && |b| <= MAX_OFFSET
    ensures Tree(Twice(b, a))
  {
    var fs := Twice(b, a);
    forall p | p in fs && p != []
      ensures ParentIsDir(fs, p)
    {
      assert [CURRENT][..0] == [] && [CURRENT, F][..1] == [CURRENT];
      assert [TRASH][..0] == [] && [TRASH, STAMP][..1] == [TRASH] && [TRASH, STAMP, F][..2] == [TRASH, STAMP];
    }
  }

  lemma DeleteReplaces(b: text, a: text)
    requires |a| <= MAX_OFFSET && |b| <= MAX_OFFSET
    ensures var src, dst := [CURRENT, F], [TRASH, STAMP, F];
      Succeeds(Rename(src, dst), Twice(b, a)) && Moved(Twice(b, a), src, dst) == Deleting(b)
  {
    hide Tree, Moved;
    var fs, src, dst := Twice(b, a), [CURRENT, F], [TRASH, STAMP, F];
    assert CURRENT != TRASH && dst[..2] == [TRASH, STAMP] && src[0] != dst[0];
    TwiceIsTree(b, a);
    RenameFile(fs, src, dst);
    TwiceMoved(b, a);
  }

  lemma TwiceMoved(b: text, a: text)
    ensures var fs, src, dst := Twice(b, a), [CURRENT, F], [TRASH, STAMP, F];
      IsFile(fs, src) && IsFile(fs, dst) && ParentIsDir(fs, dst) && (fs - {src})[dst := fs[src]] == Deleting(b)
  {
    var src, dst := [CURRENT, F], [TRASH, STAMP, F];
    assert CURRENT != TRASH && dst[..2] == [TRASH, STAMP] && src[0] != dst[0];
  }

  /** A file deleted twice within one second, with different content: the first is lost. */
  lemma OneSecondLosesDeleted(a: text, b: text)
    requires a != b && |a| <= MAX_OFFSET && |b| <= MAX_OFFSET
    ensures Deleted(Twice(b, a), Deleting(b), ROOT, F, STAMP, true, true)
    ensures Kept(Twice(b, a), [F], a) && !Kept(Deleting(b), [F], a)
  {
    hide Accepted, Located, Spot.Target, Spot.Temp, Spot.Parent, Moved, Confined, Succeeds;
    TrashOfF();
    DeleteReplaces(b, a);
    var p := [TRASH, STAMP];
    assert p[..0] == [] && p[..1] == [TRASH] && p[..2] == p;
    NoDirsMissing(Twice(b, a), p);
    assert Gone(STAMP).Place([F]) == [TRASH, STAMP, F];
    KeptThere(Twice(b, a), Gone(STAMP), [F], a);
    NowhereKept(Deleting(b), [F], a);
  }
}
