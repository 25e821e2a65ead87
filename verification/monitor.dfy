/** The polling differ of src/monitor.c. */
module Monitor {
  import opened Bytes
  import opened Paths
  import opened Tasks
  import opened Slots

  const MAX_SNAPSHOTS := 8192

  // ---- Source trees -----------------------------------------------------------------------------

  /** What lstat and readdir report of a file; only directories' entries are ever looked at. */
  datatype Node = Node(size: int, mtime: int, mode: nat, entries: seq<Entry>)
  datatype Entry = Entry(name: text, node: Node)

  /** S_ISDIR. */
  predicate IsDir(mode: nat) { mode / 0x1000 % 0x10 == 4 }

  ghost predicate WellNamed(entries: seq<Entry>) {
    && (forall i :: 0 <= i < |entries| ==> EntryName(entries[i].name) && WellNamed(entries[i].node.entries))
    && (forall i, j :: 0 <= i < j < |entries| ==> entries[i].name != entries[j].name)
  }

  /** A visited node: the entry names leading to it and the task built for it. */
  datatype Visited = Visited(names: seq<text>, task: SyncTask)

  /** build_task_from_path. */
  function BuildTask(eventType: int, path: text, rel: text, node: Node): SyncTask {
    SyncTask(eventType, path, rel, [], node.size, node.mode, node.mtime, IsDir(node.mode), 0, 0)
  }

  /**
   * The nodes poll_scan_path gets to below the directory `dir`, which is reached through `prefix`:
   * an entry whose path is too long or not accepted is skipped with everything below it.
   */
  function Visit(root: text, dir: text, prefix: seq<text>, entries: seq<Entry>): seq<Visited>
    decreases entries
  {
    if entries == [] then []
    else
      var e := entries[|entries| - 1];
      Visit(root, dir, prefix, entries[..|entries| - 1]) +
      match JoinPath(dir, e.name)
        case None => []
        case Some(path) =>
          match GetRelative(root, path)
            case None => []
            case Some(rel) =>
              [Visited(prefix + [e.name], BuildTask(EVENT_MODIFY, path, rel, e.node))] +
              if IsDir(e.node.mode) then Visit(root, path, prefix + [e.name], e.node.entries) else []
  }

  lemma VisitNext(root: text, dir: text, prefix: seq<text>, entries: seq<Entry>, i: nat)
    requires i < |entries|
    ensures var e := entries[i];
      Visit(root, dir, prefix, entries[..i + 1]) ==
      match JoinPath(dir, e.name)
      case None => Visit(root, dir, prefix, entries[..i])
      case Some(path) =>
        match GetRelative(root, path)
        case None => Visit(root, dir, prefix, entries[..i])
        case Some(rel) =>
          var longer := Visit(root, dir, prefix, entries[..i]) +
            [Visited(prefix + [e.name], BuildTask(EVENT_MODIFY, path, rel, e.node))];
          if IsDir(e.node.mode) then longer + Visit(root, path, prefix + [e.name], e.node.entries) else longer
  {
    hide JoinPath, GetRelative, BuildTask, IsDir;
    var e, before := entries[i], Visit(root, dir, prefix, entries[..i]);
    assert entries[..i + 1][..i] == entries[..i];
    if JoinPath(dir, e.name).Some? && GetRelative(root, JoinPath(dir, e.name).value).Some? {
      var path := JoinPath(dir, e.name).value;
      var self := Visited(prefix + [e.name], BuildTask(EVENT_MODIFY, path, GetRelative(root, path).value, e.node));
      ConcatAssociative(before, [self], Visit(root, path, prefix + [e.name], e.node.entries));
    } else {
      ConcatTail(before, []);
    }
  }

  /** The nodes visited through the last entry: none, or the entry itself and what is below it. */
  lemma VisitLast(root: text, dir: text, prefix: seq<text>, entries: seq<Entry>)
    returns (path: text, self: Visited, below: seq<Visited>)
    requires entries != []
    ensures var init, e := entries[..|entries| - 1], entries[|entries| - 1];
      var before, vs := Visit(root, dir, prefix, init), Visit(root, dir, prefix, entries);
      if JoinPath(dir, e.name).None? || GetRelative(root, JoinPath(dir, e.name).value).None? then vs == before
      else
        && JoinPath(dir, e.name) == Some(path) && GetRelative(root, path) == Some(self.task.relPath)
        && self == Visited(prefix + [e.name], BuildTask(EVENT_MODIFY, path, self.task.relPath, e.node))
        && below == (if IsDir(e.node.mode) then Visit(root, path, prefix + [e.name], e.node.entries) else [])
        && vs == before + [self] + below
  {
    hide JoinPath, GetRelative, IsDir;
    var e, i := entries[|entries| - 1], |entries| - 1;
    assert entries[..i + 1] == entries;
    VisitNext(root, dir, prefix, entries, i);
    path, self, below := [], Visited([], BuildTask(0, [], [], e.node)), [];
    if JoinPath(dir, e.name).Some? && GetRelative(root, JoinPath(dir, e.name).value).Some? {
      path := JoinPath(dir, e.name).value;
      self := Visited(prefix + [e.name], BuildTask(EVENT_MODIFY, path, GetRelative(root, path).value, e.node));
      below := if IsDir(e.node.mode) then Visit(root, path, prefix + [e.name], e.node.entries) else [];
      ConcatTail(Visit(root, dir, prefix, entries[..i]) + [self], []);
    }
  }

  // ---- Distinct nodes -----------------------------------------------------------------------------

  ghost predicate DirOf(root: text, dir: text, prefix: seq<text>) {
    dir == if prefix == [] then root else NodePath(root, prefix)
  }

  /** A visited node's names continue `prefix` through one of `entries`, and name its relative path. */
  ghost predicate Below(root: text, prefix: seq<text>, entries: seq<Entry>, v: Visited) {
    && prefix < v.names
    && (exists i :: 0 <= i < |entries| && entries[i].name == v.names[|prefix|])
    && (forall n :: n in v.names ==> EntryName(n))
    && GetRelative(root, NodePath(root, v.names)) == Some(v.task.relPath)
    && |NodePath(root, v.names)| < MAX_PATH_LEN
  }

  lemma JoinIsNodePath(root: text, dir: text, prefix: seq<text>, name: text)
    requires DirOf(root, dir, prefix) && EntryName(name) && JoinPath(dir, name).Some?
    ensures DirOf(root, JoinPath(dir, name).value, prefix + [name])
  {
    assert (prefix + [name])[..|prefix|] == prefix;
    assert SkipSlashes(name) == name by { assert name[0] in name; }
  }

  lemma WiderBelow(root: text, prefix: seq<text>, init: seq<Entry>, last: Entry, v: Visited)
    requires Below(root, prefix, init, v)
    ensures Below(root, prefix, init + [last], v)
  {
    hide NodePath, GetRelative, EntryName;
    var i :| 0 <= i < |init| && init[i].name == v.names[|prefix|];
    assert (init + [last])[i].name == v.names[|prefix|];
  }

  lemma DeeperBelow(root: text, prefix: seq<text>, init: seq<Entry>, last: Entry, v: Visited)
    requires Below(root, prefix + [last.name], last.node.entries, v)
    ensures Below(root, prefix, init + [last], v)
  {
    hide NodePath, GetRelative, EntryName;
    assert (init + [last])[|init|].name == v.names[|prefix|];
  }

  lemma SelfBelow(root: text, dir: text, prefix: seq<text>, init: seq<Entry>, last: Entry, v: Visited)
    requires DirOf(root, dir, prefix) && EntryName(last.name) && (forall n :: n in prefix ==> EntryName(n))
    requires v.names == prefix + [last.name] && JoinPath(dir, last.name).Some?
    requires GetRelative(root, JoinPath(dir, last.name).value) == Some(v.task.relPath)
    ensures Below(root, prefix, init + [last], v)
  {
    JoinIsNodePath(root, dir, prefix, last.name);
    hide GetRelative, EntryName;
    assert (init + [last])[|init|].name == v.names[|prefix|];
  }

  lemma {:induction false} VisitedBelow(root: text, dir: text, prefix: seq<text>, entries: seq<Entry>, k: nat)
    requires WellNamed(entries) && DirOf(root, dir, prefix) && (forall n :: n in prefix ==> EntryName(n))
    requires k < |Visit(root, dir, prefix, entries)|
    ensures Below(root, prefix, entries, Visit(root, dir, prefix, entries)[k])
    decreases entries
  {
    hide Visit, Below, EntryName, NodePath, GetRelative, JoinPath, DirOf;
    NothingIn(root, dir, prefix, entries);
    var init, e := entries[..|entries| - 1], entries[|entries| - 1];
    assert entries == init + [e];
    var before := Visit(root, dir, prefix, init);
    var path, self, below := VisitLast(root, dir, prefix, entries);
    if k < |before| {
      VisitedBelow(root, dir, prefix, init, k);
      WiderBelow(root, prefix, init, e, before[k]);
    } else if k == |before| {
      SelfBelow(root, dir, prefix, init, e, self);
    } else {
      JoinIsNodePath(root, dir, prefix, e.name);
      VisitedBelow(root, path, prefix + [e.name], e.node.entries, k - |before| - 1);
      DeeperBelow(root, prefix, init, e, below[k - |before| - 1]);
    }
  }

  lemma NothingIn(root: text, dir: text, prefix: seq<text>, entries: seq<Entry>)
    ensures Visit(root, dir, prefix, entries) != [] ==> entries != []
  {
  }

  /** Distinct visited nodes have distinct relative paths. */
  lemma {:induction false} VisitedDistinct(root: text, dir: text, prefix: seq<text>, entries: seq<Entry>, k: nat,
          l: nat)
    requires WellNamed(entries) && DirOf(root, dir, prefix) && (forall n :: n in prefix ==> EntryName(n))
    requires k < l < |Visit(root, dir, prefix, entries)|
    ensures Visit(root, dir, prefix, entries)[k].task.relPath != Visit(root, dir, prefix, entries)[l].task.relPath
  {
    var vs := Visit(root, dir, prefix, entries);
    VisitedBelow(root, dir, prefix, entries, k);
    VisitedBelow(root, dir, prefix, entries, l);
    NamesDistinct(root, dir, prefix, entries, k, l);
    if vs[k].task.relPath == vs[l].task.relPath {
      DistinctNodesDistinctPaths(root, vs[k].names, vs[l].names);
    }
  }

  lemma {:induction false} NamesDistinct(root: text, dir: text, prefix: seq<text>, entries: seq<Entry>, k: nat, l: nat)
    requires WellNamed(entries) && DirOf(root, dir, prefix) && (forall n :: n in prefix ==> EntryName(n))
    requires k < l < |Visit(root, dir, prefix, entries)|
    ensures Visit(root, dir, prefix, entries)[k].names != Visit(root, dir, prefix, entries)[l].names
    decreases entries
  {
    hide Visit, EntryName, NodePath, GetRelative, JoinPath, DirOf, Below;
    NothingIn(root, dir, prefix, entries);
    var init, e := entries[..|entries| - 1], entries[|entries| - 1];
    var n := |Visit(root, dir, prefix, init)|;
    var path, self, below := VisitLast(root, dir, prefix, entries);
    if l < n {
      NamesDistinct(root, dir, prefix, init, k, l);
    } else {
      LastEntry(root, dir, prefix, entries, l);
      if k < n {
        OtherEntry(root, dir, prefix, entries, k);
      } else {
        LastEntry(root, dir, prefix, entries, k);
        if k > n {
          JoinIsNodePath(root, dir, prefix, e.name);
          NamesDistinct(root, path, prefix + [e.name], e.node.entries, k - n - 1, l - n - 1);
        }
      }
    }
  }

  /** What is visited through the last entry: the entry itself, then nodes below it. */
  lemma LastEntry(root: text, dir: text, prefix: seq<text>, entries: seq<Entry>, k: nat)
    requires WellNamed(entries) && DirOf(root, dir, prefix) && (forall n :: n in prefix ==> EntryName(n))
    requires entries != []
    requires |Visit(root, dir, prefix, entries[..|entries| - 1])| <= k < |Visit(root, dir, prefix, entries)|
    ensures var v, name := Visit(root, dir, prefix, entries)[k], entries[|entries| - 1].name;
      && prefix + [name] <= v.names
      && (k == |Visit(root, dir, prefix, entries[..|entries| - 1])| <==> v.names == prefix + [name])
  {
    hide NodePath, GetRelative, Visit, EntryName, JoinPath, DirOf;
    var e, n := entries[|entries| - 1], |Visit(root, dir, prefix, entries[..|entries| - 1])|;
    var path, self, below := VisitLast(root, dir, prefix, entries);
    if k > n {
      JoinIsNodePath(root, dir, prefix, e.name);
      VisitedBelow(root, path, prefix + [e.name], e.node.entries, k - n - 1);
    }
  }

  /** What is visited through an earlier entry does not go through the last one. */
  lemma OtherEntry(root: text, dir: text, prefix: seq<text>, entries: seq<Entry>, k: nat)
    requires WellNamed(entries) && DirOf(root, dir, prefix) && (forall n :: n in prefix ==> EntryName(n))
    requires entries != []
    requires k < |Visit(root, dir, prefix, entries[..|entries| - 1])| <= |Visit(root, dir, prefix, entries)|
    requires Visit(root, dir, prefix, entries)[k] == Visit(root, dir, prefix, entries[..|entries| - 1])[k]
    ensures !(prefix + [entries[|entries| - 1].name] <= Visit(root, dir, prefix, entries)[k].names)
  {
    hide NodePath, GetRelative, Visit, EntryName, JoinPath, DirOf;
    var init, name := entries[..|entries| - 1], entries[|entries| - 1].name;
    VisitedBelow(root, dir, prefix, init, k);
    var v := Visit(root, dir, prefix, init)[k];
    assert (prefix + [name])[|prefix|] == name;
  }

  // ---- Which nodes are visited --------------------------------------------------------------------------

  /** `names` leads through directories of the tree to `node`. */
  ghost predicate Reaches(entries: seq<Entry>, names: seq<text>, node: Node)
    decreases names, 1
  {
    names != [] && exists i :: 0 <= i < |entries| && Leads(entries[i], names, node)
  }

  ghost predicate Leads(e: Entry, names: seq<text>, node: Node)
    requires names != []
    decreases names, 0
  {
    && e.name == names[0]
    && if |names| == 1 then e.node == node else IsDir(e.node.mode) && Reaches(e.node.entries, names[1..], node)
  }

  /** The node's own path passes the checks. */
  ghost predicate Passes(root: text, names: seq<text>)
    requires names != []
  {
    |NodePath(root, names)| < MAX_PATH_LEN && GetRelative(root, NodePath(root, names)).Some?
  }

  lemma PassesIff(root: text, names: seq<text>)
    requires names != [] && forall n :: n in names ==> EntryName(n)
    ensures Passes(root, names) <==>
      Tidy(root) && Accepted(Unsplit(names)) && |Unsplit(names)| < MAX_PATH_LEN
      && |AsPrefix(root)| + |Unsplit(names)| < MAX_PATH_LEN
  {
    hide EntryName, Accepted, GetRelative, NodePath, Unsplit, AsPrefix, RootLen;
    NodePasses(root, names);
    NodePathIsUnsplit(root, names);
  }

  /** Whatever makes a node's path unacceptable is still there in the paths below it. */
  lemma AncestorsPass(root: text, names: seq<text>, j: nat)
    requires (forall n :: n in names ==> EntryName(n)) && 0 < j <= |names| && Passes(root, names)
    ensures Passes(root, names[..j])
  {
    hide EntryName, Accepted, GetRelative, NodePath, Unsplit, AsPrefix, RootLen, Passes;
    assert names == names[..j] + names[j..];
    if j < |names| {
      assert forall n :: n in names[..j] ==> n in names;
      UnsplitConcat(names[..j], names[j..]);
      PassesIff(root, names);
      PassesIff(root, names[..j]);
      AcceptedAbove(names[..j], names[j..]);
    } else {
      assert names[..j] == names;
    }
  }

  lemma AcceptedAbove(upper: seq<text>, lower: seq<text>)
    requires upper != [] && lower != [] && (forall n :: n in upper ==> EntryName(n))
    requires Accepted(Unsplit(upper) + [SLASH] + Unsplit(lower))
    ensures Accepted(Unsplit(upper))
  {
    var u, v := Unsplit(upper), Unsplit(upper) + [SLASH] + Unsplit(lower);
    FirstName(upper);
    forall word | Contains(u, word)
      ensures Contains(v, word)
    {
      var i: nat :| i <= |u| && OccursAt(u, i, word);
      assert v[..|u|] == u;
      assert OccursAt(v, i, word);
    }
    assert |upper| > 1 ==> SLASH in u;
    assert upper[0] in upper;
  }

  lemma {:induction false} VisitComplete(root: text, dir: text, prefix: seq<text>, entries: seq<Entry>,
          names: seq<text>, node: Node)
    returns (k: nat)
    requires DirOf(root, dir, prefix) && (forall n :: n in prefix + names ==> EntryName(n))
    requires Reaches(entries, names, node) && forall j :: 0 < j <= |names| ==> Passes(root, prefix + names[..j])
    ensures k < |Visit(root, dir, prefix, entries)| && Visit(root, dir, prefix, entries)[k].names == prefix + names
    decreases entries
  {
    hide Visit, EntryName, GetRelative, NodePath, JoinPath, DirOf;
    var init, e := entries[..|entries| - 1], entries[|entries| - 1];
    var before := Visit(root, dir, prefix, init);
    var path, self, below := VisitLast(root, dir, prefix, entries);
    var i :| 0 <= i < |entries| && Leads(entries[i], names, node);
    if i < |entries| - 1 {
      assert init[i] == entries[i];
      k := VisitComplete(root, dir, prefix, init, names, node);
    } else {
      assert names[..1] == [e.name] && e.name in prefix + names;
      assert Passes(root, prefix + [e.name]);
      JoinedPath(root, dir, prefix, e.name);
      if |names| == 1 {
        k := |before|;
      } else {
        DeeperPasses(root, prefix, names);
        k := VisitComplete(root, path, prefix + [e.name], e.node.entries, names[1..], node);
        k := |before| + 1 + k;
      }
    }
  }

  lemma DeeperPasses(root: text, prefix: seq<text>, names: seq<text>)
    requires |names| > 1 && forall j :: 0 < j <= |names| ==> Passes(root, prefix + names[..j])
    ensures prefix + [names[0]] + names[1..] == prefix + names
    ensures forall j :: 0 < j <= |names[1..]| ==> Passes(root, prefix + [names[0]] + names[1..][..j])
  {
    hide Passes;
    forall j | 0 < j <= |names[1..]|
      ensures Passes(root, prefix + [names[0]] + names[1..][..j])
    {
      assert prefix + [names[0]] + names[1..][..j] == prefix + names[..j + 1];
    }
  }

  lemma JoinedPath(root: text, dir: text, prefix: seq<text>, name: text)
    requires DirOf(root, dir, prefix) && EntryName(name) && |NodePath(root, prefix + [name])| < MAX_PATH_LEN
    ensures JoinPath(dir, name) == Some(NodePath(root, prefix + [name]))
    ensures DirOf(root, NodePath(root, prefix + [name]), prefix + [name])
  {
    assert (prefix + [name])[..|prefix|] == prefix;
    assert SkipSlashes(name) == name by { assert name[0] in name; }
  }

  /** The task reports this node under these names: its place, size, times, mode and whether it is a directory. */
  ghost predicate Reports(t: SyncTask, root: text, names: seq<text>, node: Node)
    requires names != []
  {
    && t.srcPath == root + Glue(root) + Unsplit(names) && t.relPath == Unsplit(names) && t.oldRelPath == []
    && t.fileSize == node.size && t.mode == node.mode && t.mtime == node.mtime
    && (t.isDir <==> node.mode / 0x1000 % 0x10 == 4) && t.retryCount == 0
  }

  lemma BuiltReports(root: text, names: seq<text>, path: text, rel: text, node: Node)
    requires names != [] && (forall n :: n in names ==> EntryName(n))
    requires path == NodePath(root, names) && GetRelative(root, path) == Some(rel)
    ensures Reports(BuildTask(EVENT_MODIFY, path, rel, node), root, names, node)
  {
    RelativeOfNode(root, names);
    NodePathIsUnsplit(root, names);
    hide GetRelative, NodePath, Unsplit, EntryName;
    assert AsPrefix(root) == root + Glue(root);
  }

  /** Nothing is made up: each visited node is in the tree and its task reports that node's data. */
  lemma {:induction false} VisitedIsReal(root: text, dir: text, prefix: seq<text>, entries: seq<Entry>, k: nat)
    returns (node: Node)
    requires WellNamed(entries) && DirOf(root, dir, prefix) && (forall n :: n in prefix ==> EntryName(n))
    requires k < |Visit(root, dir, prefix, entries)|
    ensures var v := Visit(root, dir, prefix, entries)[k];
      && prefix < v.names
      && Reaches(entries, v.names[|prefix|..], node)
      && Reports(v.task, root, v.names, node) && v.task.eventType == 2
    decreases entries
  {
    hide Visit, EntryName, GetRelative, NodePath, JoinPath, DirOf, Reports;
    NothingIn(root, dir, prefix, entries);
    VisitedBelow(root, dir, prefix, entries, k);
    var init, e, v := entries[..|entries| - 1], entries[|entries| - 1], Visit(root, dir, prefix, entries)[k];
    var n, names := |Visit(root, dir, prefix, init)|, v.names[|prefix|..];
    var path, self, below := VisitLast(root, dir, prefix, entries);
    if k < n {
      node := VisitedIsReal(root, dir, prefix, init, k);
      var i :| 0 <= i < |init| && Leads(init[i], names, node);
      assert Leads(entries[i], names, node);
    } else {
      JoinIsNodePath(root, dir, prefix, e.name);
      DirIs(root, path, prefix + [e.name]);
      if k == n {
        node := e.node;
        assert names == [e.name];
        BuiltReports(root, prefix + [e.name], path, self.task.relPath, node);
      } else {
        node := VisitedIsReal(root, path, prefix + [e.name], e.node.entries, k - n - 1);
        assert names[1..] == v.names[|prefix + [e.name]|..];
        assert names[0] == e.name;
      }
      assert Leads(e, names, node);
    }
  }

  lemma DirIs(root: text, dir: text, prefix: seq<text>)
    requires DirOf(root, dir, prefix) && prefix != []
    ensures dir == NodePath(root, prefix)
  {
  }

  /**
   * A poll visits exactly the nodes whose own path is accepted and short enough: a rejected node is
   * pruned with its subtree, and everything in that subtree would have been rejected too.
   */
  lemma VisitedIffAccepted(root: text, entries: seq<Entry>, names: seq<text>, node: Node)
    requires WellNamed(entries) && Reaches(entries, names, node) && forall n :: n in names ==> EntryName(n)
    ensures (exists k ::
      0 <= k < |Visit(root, root, [], entries)| && Visit(root, root, [], entries)[k].names == names) <==>
      Passes(root, names)
  {
    var vs := Visit(root, root, [], entries);
    if k: nat :| k < |vs| && vs[k].names == names {
      VisitedBelow(root, root, [], entries, k);
    }
    if Passes(root, names) {
      forall j | 0 < j <= |names|
        ensures Passes(root, [] + names[..j])
      {
        AncestorsPass(root, names, j);
        assert [] + names[..j] == names[..j];
      }
      assert [] + names == names;
      var k := VisitComplete(root, root, [], entries, names, node);
      assert vs[k].names == names;
    }
  }

  // ---- One poll over the snapshot table --------------------------------------------------------------

  /** FileSnapshot without its key and `used` flag. */
  datatype Snap = Snap(seen: bool, srcPath: text, size: int, mtime: int, mode: int, isDir: bool)

  datatype Poll = Poll(slots: seq<Slot<Snap>>, events: seq<SyncTask>)

  function SnapOf(t: SyncTask): Snap { Snap(true, t.srcPath, t.fileSize, t.mtime, t.mode, t.isDir) }

  function Unseen(slot: Slot<Snap>): Slot<Snap> {
    if slot.Used? then slot.(value := slot.value.(seen := false)) else slot
  }

  ghost function MarkAllUnseen(s: seq<Slot<Snap>>): seq<Slot<Snap>> {
    seq(|s|, i requires 0 <= i < |s| => Unseen(s[i]))
  }

  predicate Differs(v: Snap, t: SyncTask) { v.size != t.fileSize || v.mtime != t.mtime || v.mode != t.mode }

  /** The body of the scan loop for one task. */
  ghost function Observe(p: Poll, t: SyncTask): Poll {
    var found := Find(p.slots, t.relPath);
    if found < 0 then
      var free := FirstFree(p.slots);
      if free < 0 then p
      else Poll(p.slots[free := Used(t.relPath, SnapOf(t))], p.events + [t.(eventType := EVENT_CREATE)])
    else if Differs(p.slots[found].value, t) then
      Poll(p.slots[found := Used(t.relPath, SnapOf(t))], p.events + [t.(eventType := EVENT_MODIFY)])
    else
      p.(slots := p.slots[found := Used(t.relPath, p.slots[found].value.(seen := true))])
  }

  ghost function ObserveAll(p: Poll, vs: seq<Visited>): Poll {
    if vs == [] then p else Observe(ObserveAll(p, vs[..|vs| - 1]), vs[|vs| - 1].task)
  }

  function DeleteTask(key: text, v: Snap): SyncTask {
    SyncTask(EVENT_DELETE, v.srcPath, key, [], 0, 0, 0, v.isDir, 0, 0)
  }

  /** The sweep over the first `n` slots. */
  ghost function Sweep(p: Poll, n: nat): (r: Poll)
    requires n <= |p.slots|
    ensures |r.slots| == |p.slots|
  {
    if n == 0 then p
    else
      var q := Sweep(p, n - 1);
      match q.slots[n - 1]
      case Used(key, v) => if v.seen then q else Poll(q.slots[n - 1 := Free], q.events + [DeleteTask(key, v)])
      case Free => q
  }

  /** poll_scan_and_emit_changes on a tree in which `vs` is visited. */
  ghost function PollOnce(s: seq<Slot<Snap>>, vs: seq<Visited>): Poll {
    var p := ObserveAll(Poll(MarkAllUnseen(s), []), vs);
    Sweep(p, |p.slots|)
  }

  // ---- The diff as a map ---------------------------------------------------------------------------------

  /** What the differ compares. */
  datatype Meta = Meta(size: int, mtime: int, mode: int)
  type Catalogue = map<text, Meta>

  ghost function SnapMeta(v: Snap): Meta { Meta(v.size, v.mtime, v.mode) }

  ghost function MetaOf(t: SyncTask): Meta { Meta(t.fileSize, t.mtime, t.mode) }

  ghost function CatalogueOf(s: seq<Slot<Snap>>): Catalogue {
    map k | k in View(s) :: SnapMeta(View(s)[k])
  }

  /** The accepted part of the tree. */
  ghost function Target(vs: seq<Visited>): Catalogue {
    if vs == [] then map[] else Target(vs[..|vs| - 1])[vs[|vs| - 1].task.relPath := MetaOf(vs[|vs| - 1].task)]
  }

  ghost function Get(c: Catalogue, p: text): Option<Meta> { if p in c then Some(c[p]) else None }

  /** The event says what happened to its path between the two catalogues. */
  ghost predicate Tells(e: SyncTask, from: Catalogue, to: Catalogue) {
    var p := e.relPath;
    match (Get(from, p), Get(to, p))
    case (None, Some(m)) => e.eventType == EVENT_CREATE && MetaOf(e) == m
    case (Some(l), Some(m)) => l != m && e.eventType == EVENT_MODIFY && MetaOf(e) == m
    case (Some(_), None) => e.eventType == EVENT_DELETE
    case (None, None) => false
  }

  /** Exactly one event, and the right one, for every path that changed, and none for any other. */
  ghost predicate ExactDiff(events: seq<SyncTask>, from: Catalogue, to: Catalogue) {
    && (forall i :: 0 <= i < |events| ==> Tells(events[i], from, to))
    && (forall i, j :: 0 <= i < j < |events| ==> events[i].relPath != events[j].relPath)
    && (forall p :: Get(from, p) != Get(to, p) ==> exists i :: 0 <= i < |events| && events[i].relPath == p)
  }

  /** Applying events to a catalogue. */
  ghost function Replay(c: Catalogue, events: seq<SyncTask>): Catalogue {
    if events == [] then c
    else
      var before, e := Replay(c, events[..|events| - 1]), events[|events| - 1];
      if e.eventType == EVENT_DELETE then before - {e.relPath} else before[e.relPath := MetaOf(e)]
  }

  lemma {:induction false} ReplayUpTo(events: seq<SyncTask>, from: Catalogue, to: Catalogue, n: nat, p: text)
    requires n <= |events|
    requires forall i :: 0 <= i < |events| ==> Tells(events[i], from, to)
    requires forall i, j :: 0 <= i < j < |events| ==> events[i].relPath != events[j].relPath
    ensures Get(Replay(from, events[..n]), p) ==
      if exists i :: 0 <= i < n && events[i].relPath == p then Get(to, p) else Get(from, p)
  {
    if n > 0 {
      ReplayUpTo(events, from, to, n - 1, p);
      assert events[..n][..n - 1] == events[..n - 1];
      assert Tells(events[n - 1], from, to);
    }
  }

  /** An exact diff turns the old catalogue into the new one. */
  lemma ReplayIsTarget(events: seq<SyncTask>, from: Catalogue, to: Catalogue)
    requires ExactDiff(events, from, to)
    ensures Replay(from, events) == to
  {
    assert events[..|events|] == events;
    forall p
      ensures Get(Replay(from, events), p) == Get(to, p)
    {
      ReplayUpTo(events, from, to, |events|, p);
    }
    var r := Replay(from, events);
    forall p
      ensures p in r <==> p in to
      ensures p in to ==> r[p] == to[p]
    {
      assert Get(r, p) == Get(to, p);
    }
  }

  // ---- The poll is exact -------------------------------------------------------------------------------------

  /** One more path of the diff is settled, with an event if it changed. */
  lemma DiffNext(events: seq<SyncTask>, from: Catalogue, to: Catalogue, next: Catalogue, q: text, e: SyncTask)
    requires ExactDiff(events, from, to) && e.relPath == q && Get(to, q) == Get(from, q)
    requires forall p :: p != q ==> Get(next, p) == Get(to, p)
    ensures Get(next, q) == Get(from, q) ==> ExactDiff(events, from, next)
    ensures Tells(e, from, next) ==> ExactDiff(events + [e], from, next)
  {
    forall i | 0 <= i < |events|
      ensures events[i].relPath != q && Tells(events[i], from, next)
    {
      assert Tells(events[i], from, to);
    }
    var longer := events + [e];
    assert longer[|events|] == e;
    assert forall i :: 0 <= i < |events| ==> longer[i] == events[i];
  }

  lemma MarkKeeps(s: seq<Slot<Snap>>)
    requires Unique(s)
    ensures Unique(MarkAllUnseen(s)) && CatalogueOf(MarkAllUnseen(s)) == CatalogueOf(s)
    ensures Keys(MarkAllUnseen(s)) == Keys(s)
    ensures forall k :: At(MarkAllUnseen(s), k).Some? ==> !At(MarkAllUnseen(s), k).value.seen
  {
    hide Find, Unseen;
    var t := MarkAllUnseen(s);
    forall k
      ensures Find(t, k) == Find(s, k)
    {
      FindInMarked(s, k);
    }
    UnseenKeys(s);
    KeysSame(s, t);
  }

  lemma UnseenKeys(s: seq<Slot<Snap>>)
    ensures var t := MarkAllUnseen(s);
      && |t| == |s|
      && forall i :: 0 <= i < |s| ==>
        t[i].Used? == s[i].Used? && (s[i].Used? ==> t[i] == Used(s[i].key, s[i].value.(seen := false)))
  {
  }

  lemma FindInMarked(s: seq<Slot<Snap>>, k: text)
    ensures Find(MarkAllUnseen(s), k) == Find(s, k)
  {
    hide MarkAllUnseen, Unseen, Find;
    UnseenKeys(s);
    var t := MarkAllUnseen(s);
    assert Find(s, k) >= 0 ==> t[Find(s, k)].key == k;
    assert Find(t, k) >= 0 ==> s[Find(t, k)].key == k;
  }

  lemma KeysSame(s: seq<Slot<Snap>>, t: seq<Slot<Snap>>)
    requires |s| == |t| && forall i :: 0 <= i < |s| ==>
      s[i].Used? == t[i].Used? && (s[i].Used? ==> s[i].key == t[i].key)
    ensures Keys(s) == Keys(t)
  {
    forall k
      ensures k in Keys(s) <==> k in Keys(t)
    {
      KeysAt(s, k);
      KeysAt(t, k);
    }
  }

  /** The slot of `k` after a scan that found `c`: up to date and seen, or untouched. */
  ghost predicate SlotOk(s: seq<Slot<Snap>>, c: Catalogue, t: seq<Slot<Snap>>, k: text) {
    if k !in c then At(t, k) == At(s, k)
    else At(t, k).Some? && At(t, k).value.seen && SnapMeta(At(t, k).value) == c[k]
  }

  ghost predicate Scanned(s: seq<Slot<Snap>>, c: Catalogue, p: Poll) {
    && Unique(p.slots) && |p.slots| == |s|
    && (forall k :: SlotOk(s, c, p.slots, k))
    && ExactDiff(p.events, CatalogueOf(s), CatalogueOf(s) + c)
  }

  lemma CatalogueAt(s: seq<Slot<Snap>>, k: text)
    ensures Get(CatalogueOf(s), k) ==
      if At(s, k).None? then None else Some(SnapMeta(At(s, k).value))
  {
  }

  /** While the paths fit the table, an unknown path finds a free slot. */
  lemma RoomForOneMore(s: seq<Slot<Snap>>, c: Catalogue, t: seq<Slot<Snap>>, q: text)
    requires Unique(t) && |t| == |s| && forall k :: SlotOk(s, c, t, k)
    requires At(t, q).None? && |CatalogueOf(s).Keys + c.Keys + {q}| <= |s|
    ensures FirstFree(t) >= 0
  {
    hide Find, FirstFree;
    FreeIffRoom(t);
    var all := CatalogueOf(s).Keys + c.Keys + {q};
    assert q !in View(t).Keys;
    forall k | k in View(t).Keys
      ensures k in all
    {
      assert SlotOk(s, c, t, k);
    }
    SubsetSize(View(t).Keys, all, q);
  }

  lemma SubsetSize(a: set<text>, b: set<text>, q: text)
    requires a <= b && q in b && q !in a
    ensures |a| < |b|
  {
    assert |b| == |a| + |b - a| && q in b - a by { assert b == a + (b - a); }
  }

  /** Observing a task rewrites one slot, the path's own or a free one, and reports the change. */
  lemma ObserveShape(p: Poll, t: SyncTask) returns (i: nat, slot: Slot<Snap>)
    requires Unique(p.slots) && (At(p.slots, t.relPath).None? ==> FirstFree(p.slots) >= 0)
    ensures i < |p.slots| && slot.Used? && slot.key == t.relPath && Observe(p, t).slots == p.slots[i := slot]
    ensures slot.value.seen && SnapMeta(slot.value) == MetaOf(t)
    ensures forall j :: 0 <= j < |p.slots| && j != i && p.slots[j].Used? ==> p.slots[j].key != t.relPath
    ensures p.slots[i].Used? ==> p.slots[i].key == t.relPath
    ensures var old_ := At(p.slots, t.relPath);
      Observe(p, t).events == p.events +
        if old_.None? then [t.(eventType := EVENT_CREATE)]
        else if SnapMeta(old_.value) != MetaOf(t) then [t.(eventType := EVENT_MODIFY)]
        else []
  {
    i := if Find(p.slots, t.relPath) < 0 then FirstFree(p.slots) else Find(p.slots, t.relPath);
    slot := Observe(p, t).slots[i];
  }

  lemma ObserveSlots(s: seq<Slot<Snap>>, c: Catalogue, next: Catalogue, p: Poll, t: SyncTask)
    requires next == c[t.relPath := MetaOf(t)]
    requires Unique(p.slots) && |p.slots| == |s| && (forall k :: SlotOk(s, c, p.slots, k))
    requires At(p.slots, t.relPath).None? ==> FirstFree(p.slots) >= 0
    ensures var r := Observe(p, t);
      Unique(r.slots) && |r.slots| == |s| && forall k :: SlotOk(s, next, r.slots, k)
  {
    hide Find, FirstFree, At, Observe;
    var i, slot := ObserveShape(p, t);
    WriteIsUpdate(p.slots, i, slot);
    forall k
      ensures SlotOk(s, next, Observe(p, t).slots, k)
    {
      assert SlotOk(s, c, p.slots, k);
      WriteAt(p.slots, i, slot, k);
    }
  }

  /** The event, if any, tells the step from the old catalogue to the extended one. */
  lemma ObserveTells(from: Catalogue, c: Catalogue, p: Poll, t: SyncTask)
    requires Unique(p.slots) && (At(p.slots, t.relPath).None? ==> FirstFree(p.slots) >= 0)
    requires Get(from, t.relPath) ==
      if At(p.slots, t.relPath).None? then None
      else Some(SnapMeta(At(p.slots, t.relPath).value))
    requires ExactDiff(p.events, from, from + c) && t.relPath !in c
    ensures ExactDiff(Observe(p, t).events, from, from + c[t.relPath := MetaOf(t)])
  {
    hide Find, FirstFree, At, Observe, ExactDiff;
    var q, next := t.relPath, from + c[t.relPath := MetaOf(t)];
    var i, slot := ObserveShape(p, t);
    var created, modified := t.(eventType := EVENT_CREATE), t.(eventType := EVENT_MODIFY);
    assert p.events + [] == p.events;
    DiffNext(p.events, from, from + c, next, q, created);
    DiffNext(p.events, from, from + c, next, q, modified);
  }

  lemma ObserveKeeps(s: seq<Slot<Snap>>, c: Catalogue, p: Poll, t: SyncTask)
    requires Scanned(s, c, p) && t.relPath !in c
    requires At(p.slots, t.relPath).None? ==> FirstFree(p.slots) >= 0
    ensures Scanned(s, c[t.relPath := MetaOf(t)], Observe(p, t))
  {
    hide Find, FirstFree, ExactDiff, Observe, CatalogueOf;
    assert SlotOk(s, c, p.slots, t.relPath);
    CatalogueAt(s, t.relPath);
    ObserveSlots(s, c, c[t.relPath := MetaOf(t)], p, t);
    ObserveTells(CatalogueOf(s), c, p, t);
  }

  /** A new path that finds no free slot is skipped. */
  lemma ObserveSkips(p: Poll, t: SyncTask)
    requires At(p.slots, t.relPath).None? && FirstFree(p.slots) < 0
    ensures Observe(p, t) == p
  {
    hide FirstFree;
  }

  ghost predicate DistinctPaths(vs: seq<Visited>) {
    forall k, l :: 0 <= k < l < |vs| ==> vs[k].task.relPath != vs[l].task.relPath
  }

  lemma {:induction false} TargetUpTo(vs: seq<Visited>, n: nat)
    requires n <= |vs|
    ensures Target(vs[..n]).Keys <= Target(vs).Keys
    ensures forall p :: p in Target(vs[..n]) ==> exists k :: 0 <= k < n && vs[k].task.relPath == p
    decreases |vs| + n
  {
    if n < |vs| {
      TargetUpTo(vs[..|vs| - 1], n);
      assert vs[..|vs| - 1][..n] == vs[..n];
      forall p | p in Target(vs[..n])
        ensures exists k :: 0 <= k < n && vs[k].task.relPath == p
      {
        var k :| 0 <= k < n && vs[..|vs| - 1][k].task.relPath == p;
        assert vs[k].task.relPath == p;
      }
    } else {
      assert vs[..n] == vs;
      if n > 0 {
        TargetUpTo(vs[..n - 1], n - 1);
        var init := vs[..n - 1];
        forall p | p in Target(vs)
          ensures exists k :: 0 <= k < n && vs[k].task.relPath == p
        {
          if p == vs[n - 1].task.relPath {
          } else {
            assert init[..n - 1] == init;
            var k :| 0 <= k < n - 1 && init[k].task.relPath == p;
            assert vs[k].task.relPath == p;
          }
        }
      }
    }
  }

  /** Part of the tree. */
  ghost predicate Within(c: Catalogue, tree: Catalogue) { forall k :: k in c ==> k in tree && tree[k] == c[k] }

  /**
   * A scan finds a part of the tree, all of it if that fits the table, and has reported exactly the
   * difference to the old snapshot with this part put over it.
   */
  lemma {:induction false} ScanTracks(s: seq<Slot<Snap>>, vs: seq<Visited>, n: nat) returns (c: Catalogue)
    requires Unique(s) && DistinctPaths(vs) && n <= |vs|
    ensures Scanned(s, c, ObserveAll(Poll(s, []), vs[..n])) && Within(c, Target(vs[..n]))
    ensures |CatalogueOf(s).Keys + Target(vs[..n]).Keys| <= |s| ==> c == Target(vs[..n])
  {
    hide Scanned, Observe, Unique, DistinctPaths, CatalogueOf, Within, MetaOf;
    if n == 0 {
      c := map[];
      NothingScanned(s);
      NothingWithin(Target(vs[..0]));
    } else {
      c := ScanTracks(s, vs, n - 1);
      assert vs[..n][..n - 1] == vs[..n - 1] && vs[..n][n - 1] == vs[n - 1];
      NewPath(vs, n);
      c := ObserveTracks(s, c, Target(vs[..n - 1]), ObserveAll(Poll(s, []), vs[..n - 1]), vs[n - 1].task);
    }
  }

  lemma NothingWithin(tree: Catalogue)
    ensures Within(map[], tree)
  {
  }

  lemma GrowsWithin(c: Catalogue, tree: Catalogue, q: text, m: Meta, others: set<text>)
    requires Within(c, tree) && q !in tree
    ensures Within(c, tree[q := m]) && Within(c[q := m], tree[q := m]) && q !in c
    ensures others + tree[q := m].Keys == others + tree.Keys + {q}
    ensures |others + tree.Keys| <= |others + tree[q := m].Keys|
  {
    SizeOfSubset(others + tree.Keys, others + tree[q := m].Keys);
  }

  lemma ObserveTracks(s: seq<Slot<Snap>>, c: Catalogue, tree: Catalogue, p: Poll, t: SyncTask) returns (next: Catalogue)
    requires Scanned(s, c, p) && Within(c, tree) && t.relPath !in tree
    requires |CatalogueOf(s).Keys + tree.Keys| <= |s| ==> c == tree
    ensures var bigger := tree[t.relPath := MetaOf(t)];
      && Scanned(s, next, Observe(p, t)) && Within(next, bigger)
      && (|CatalogueOf(s).Keys + bigger.Keys| <= |s| ==> next == bigger)
  {
    hide Scanned, Observe, CatalogueOf, FirstFree, At, MetaOf, Within;
    GrowsWithin(c, tree, t.relPath, MetaOf(t), CatalogueOf(s).Keys);
    if At(p.slots, t.relPath).None? && FirstFree(p.slots) < 0 {
      next := c;
      ObserveSkips(p, t);
      NoRoomLeft(s, c, p, t.relPath);
    } else {
      ObserveKeeps(s, c, p, t);
      next := c[t.relPath := MetaOf(t)];
    }
  }

  lemma NoRoomLeft(s: seq<Slot<Snap>>, c: Catalogue, p: Poll, q: text)
    requires Scanned(s, c, p) && At(p.slots, q).None? && FirstFree(p.slots) < 0
    ensures |CatalogueOf(s).Keys + c.Keys + {q}| > |s|
  {
    hide ExactDiff, FirstFree, At, CatalogueOf;
    if |CatalogueOf(s).Keys + c.Keys + {q}| <= |s| {
      RoomForOneMore(s, c, p.slots, q);
    }
  }

  lemma LastInTarget(vs: seq<Visited>, n: nat)
    requires 0 < n <= |vs|
    ensures vs[n - 1].task.relPath in Target(vs[..n])
  {
    hide MetaOf;
    assert vs[..n][n - 1] == vs[n - 1];
  }

  lemma NewPath(vs: seq<Visited>, n: nat)
    requires DistinctPaths(vs) && 0 < n <= |vs|
    ensures vs[n - 1].task.relPath !in Target(vs[..n - 1]) && vs[n - 1].task.relPath in Target(vs)
    ensures Target(vs[..n - 1]).Keys <= Target(vs).Keys
  {
    hide Target;
    TargetUpTo(vs, n - 1);
    TargetUpTo(vs, n);
    LastInTarget(vs, n);
  }

  lemma NothingScanned(s: seq<Slot<Snap>>)
    requires Unique(s)
    ensures Scanned(s, map[], Poll(s, []))
  {
    hide Find, At;
    assert CatalogueOf(s) + map[] == CatalogueOf(s);
    EmptyDiff(CatalogueOf(s));
  }

  lemma EmptyDiff(c: Catalogue)
    ensures ExactDiff([], c, c)
  {
  }

  // ---- The sweep ---------------------------------------------------------------------------------------------

  ghost function Swept(slot: Slot<Snap>): Slot<Snap> { if slot.Used? && !slot.value.seen then Free else slot }

  /** The catalogue without the unseen paths of the first `n` slots. */
  ghost function Remaining(c: Catalogue, s: seq<Slot<Snap>>, n: nat): Catalogue
    requires n <= |s|
  {
    if n == 0 then c
    else if s[n - 1].Used? && !s[n - 1].value.seen then Remaining(c, s, n - 1) - {s[n - 1].key}
    else Remaining(c, s, n - 1)
  }

  lemma {:induction false} RemainingAt(c: Catalogue, s: seq<Slot<Snap>>, n: nat, k: text)
    requires n <= |s| && Unique(s)
    ensures Get(Remaining(c, s, n), k) ==
      if exists i :: 0 <= i < n && s[i].Used? && !s[i].value.seen && s[i].key == k then None else Get(c, k)
  {
    if n > 0 {
      RemainingAt(c, s, n - 1, k);
    }
  }

  /** The sweep empties exactly the unseen slots and reports each as a deletion. */
  lemma {:induction false} SweepIsExact(from: Catalogue, c: Catalogue, p: Poll, n: nat)
    requires n <= |p.slots| && Unique(p.slots) && ExactDiff(p.events, from, c)
    requires forall i :: 0 <= i < |p.slots| && p.slots[i].Used? && !p.slots[i].value.seen ==>
      p.slots[i].key in from && Get(c, p.slots[i].key) == Get(from, p.slots[i].key)
    ensures var r := Sweep(p, n);
      && (forall i :: 0 <= i < |p.slots| ==> r.slots[i] == if i < n then Swept(p.slots[i]) else p.slots[i])
      && ExactDiff(r.events, from, Remaining(c, p.slots, n))
  {
    hide ExactDiff;
    if n > 0 {
      SweepIsExact(from, c, p, n - 1);
      var slot := p.slots[n - 1];
      if slot.Used? && !slot.value.seen {
        var k, e := slot.key, DeleteTask(slot.key, slot.value);
        forall q
          ensures q != k ==> Get(Remaining(c, p.slots, n), q) == Get(Remaining(c, p.slots, n - 1), q)
        {
        }
        RemainingAt(c, p.slots, n - 1, k);
        DiffNext(Sweep(p, n - 1).events, from, Remaining(c, p.slots, n - 1), Remaining(c, p.slots, n), k, e);
      }
    }
  }

  /** What is left after a scan and its sweep is what the scan found. */
  lemma SweptCatalogue(s: seq<Slot<Snap>>, c: Catalogue, p: Poll, t: seq<Slot<Snap>>)
    requires Scanned(s, c, p) && forall k :: At(s, k).Some? ==> !At(s, k).value.seen
    requires |t| == |p.slots| && forall i :: 0 <= i < |t| ==> t[i] == Swept(p.slots[i])
    ensures Unique(t) && CatalogueOf(t) == c
    ensures Remaining(CatalogueOf(s) + c, p.slots, |p.slots|) == c
  {
    hide ExactDiff, Find;
    forall k
      ensures Get(CatalogueOf(t), k) == Get(c, k)
      ensures Get(Remaining(CatalogueOf(s) + c, p.slots, |p.slots|), k) == Get(c, k)
    {
      SweptAt(s, c, p, t, k);
      CatalogueAt(t, k);
      CatalogueAt(s, k);
      RemainingAt(CatalogueOf(s) + c, p.slots, |p.slots|, k);
    }
    SameCatalogue(CatalogueOf(t), c);
    SameCatalogue(Remaining(CatalogueOf(s) + c, p.slots, |p.slots|), c);
  }

  lemma SameCatalogue(a: Catalogue, b: Catalogue)
    requires forall k :: Get(a, k) == Get(b, k)
    ensures a == b
  {
    forall k
      ensures k in a <==> k in b
      ensures k in a ==> a[k] == b[k]
    {
      assert Get(a, k) == Get(b, k);
    }
  }

  lemma SweptAt(s: seq<Slot<Snap>>, c: Catalogue, p: Poll, t: seq<Slot<Snap>>, k: text)
    requires Scanned(s, c, p) && forall k :: At(s, k).Some? ==> !At(s, k).value.seen
    requires |t| == |p.slots| && forall i :: 0 <= i < |t| ==> t[i] == Swept(p.slots[i])
    ensures At(t, k) == if k in c then At(p.slots, k) else None
    ensures At(p.slots, k).Some? && k !in c ==>
      exists i :: 0 <= i < |p.slots| && p.slots[i].Used? && !p.slots[i].value.seen && p.slots[i].key == k
    ensures k in c ==>
      !exists i :: 0 <= i < |p.slots| && p.slots[i].Used? && !p.slots[i].value.seen && p.slots[i].key == k
    ensures k in c ==> At(t, k).Some? && SnapMeta(At(t, k).value) == c[k]
    ensures k !in c ==> At(p.slots, k) == At(s, k)
  {
    hide ExactDiff, Find;
    assert SlotOk(s, c, p.slots, k);
    var i, j := Find(p.slots, k), Find(t, k);
    assert j >= 0 ==> t[j] == p.slots[j];
    assert i >= 0 ==> t[i] == Swept(p.slots[i]);
  }

  lemma CatalogueKeys(s: seq<Slot<Snap>>)
    ensures CatalogueOf(s).Keys == Keys(s)
  {
    assert View(s).Keys == Keys(s);
    hide Keys, View;
  }

  /** The old paths and the found ones all have slots. */
  lemma AllHaveSlots(s: seq<Slot<Snap>>, c: Catalogue, p: Poll)
    requires Scanned(s, c, p)
    ensures |Keys(s) + c.Keys| <= |s|
  {
    hide ExactDiff, Find, Keys;
    forall k | k in Keys(s) + c.Keys
      ensures k in Keys(p.slots)
    {
      assert SlotOk(s, c, p.slots, k);
      assert k in View(s).Keys || k in c;
      assert k in View(p.slots).Keys;
    }
    FreeIffRoom(p.slots);
    SizeOfSubset(Keys(s) + c.Keys, Keys(p.slots));
  }

  /**
   * One poll, whatever fits the table: it reports exactly the difference between the old snapshot
   * and what the table ends up with, which is a part of the tree, one slot a path; and it is all of
   * the tree if and only if the old paths and those of the tree together fit the table.
   */
  lemma PollTracks(s: seq<Slot<Snap>>, vs: seq<Visited>)
    requires Unique(s) && DistinctPaths(vs)
    ensures var r := PollOnce(s, vs); var c := CatalogueOf(r.slots);
      && Unique(r.slots) && |r.slots| == |s|
      && Within(c, Target(vs)) && (c == Target(vs) <==> |Keys(s) + Target(vs).Keys| <= |s|)
      && ExactDiff(r.events, CatalogueOf(s), c)
      && Replay(CatalogueOf(s), r.events) == c
  {
    hide ExactDiff, Sweep, ObserveAll, DistinctPaths, Find, Replay, Within, Keys;
    var marked := MarkAllUnseen(s);
    MarkKeeps(s);
    CatalogueKeys(s);
    var c := ScanTracks(marked, vs, |vs|);
    assert vs[..|vs|] == vs;
    var p := ObserveAll(Poll(marked, []), vs);
    AllHaveSlots(marked, c, p);
    forall i | 0 <= i < |p.slots| && p.slots[i].Used? && !p.slots[i].value.seen
      ensures p.slots[i].key in CatalogueOf(marked)
      ensures Get(CatalogueOf(marked) + c, p.slots[i].key) == Get(CatalogueOf(marked), p.slots[i].key)
    {
      UnseenIsOld(marked, c, p, i);
    }
    SweepIsExact(CatalogueOf(marked), CatalogueOf(marked) + c, p, |p.slots|);
    SweptCatalogue(marked, c, p, Sweep(p, |p.slots|).slots);
    ReplayIsTarget(Sweep(p, |p.slots|).events, CatalogueOf(s), c);
  }

  /**
   * A poll reports exactly the difference between the old snapshot and the tree if and only if
   * their paths together fit the table.
   */
  lemma PollIsExact(s: seq<Slot<Snap>>, vs: seq<Visited>)
    requires Unique(s) && DistinctPaths(vs)
    ensures var r := PollOnce(s, vs);
      && Unique(r.slots) && |r.slots| == |s|
      && (ExactDiff(r.events, CatalogueOf(s), Target(vs)) <==> |Keys(s) + Target(vs).Keys| <= |s|)
      && (|Keys(s) + Target(vs).Keys| <= |s| ==>
        CatalogueOf(r.slots) == Target(vs) && Replay(CatalogueOf(s), r.events) == Target(vs))
  {
    hide ExactDiff, PollOnce, DistinctPaths, Replay, Within, Keys, CatalogueOf, Target;
    PollTracks(s, vs);
    if ExactDiff(PollOnce(s, vs).events, CatalogueOf(s), Target(vs)) {
      ReplayIsTarget(PollOnce(s, vs).events, CatalogueOf(s), Target(vs));
    }
  }

  /** Whatever the table held before, two polls catch up with a tree that fits it. */
  lemma TwoPollsCatchUp(s: seq<Slot<Snap>>, vs: seq<Visited>)
    requires Unique(s) && DistinctPaths(vs) && |Target(vs).Keys| <= |s|
    ensures CatalogueOf(PollOnce(PollOnce(s, vs).slots, vs).slots) == Target(vs)
  {
    hide ExactDiff, PollOnce, DistinctPaths, Replay, Keys, CatalogueOf, Target;
    PollTracks(s, vs);
    var t := PollOnce(s, vs).slots;
    CatalogueKeys(t);
    assert Keys(t) + Target(vs).Keys == Target(vs).Keys;
    PollTracks(t, vs);
  }

  lemma UnseenIsOld(s: seq<Slot<Snap>>, c: Catalogue, p: Poll, i: nat)
    requires Scanned(s, c, p) && i < |p.slots| && p.slots[i].Used? && !p.slots[i].value.seen
    ensures p.slots[i].key in CatalogueOf(s) && p.slots[i].key !in c
  {
    hide ExactDiff, Find;
    var k := p.slots[i].key;
    ViewAt(p.slots, i);
    assert SlotOk(s, c, p.slots, k);
    CatalogueAt(s, k);
  }

  /** Polling again while nothing changes reports nothing. */
  lemma SecondPollIsSilent(s: seq<Slot<Snap>>, vs: seq<Visited>)
    requires Unique(s) && DistinctPaths(vs) && |Keys(s) + Target(vs).Keys| <= |s|
    ensures PollOnce(PollOnce(s, vs).slots, vs).events == []
  {
    hide ExactDiff, PollOnce, CatalogueOf, Target, Replay, DistinctPaths, Keys;
    PollIsExact(s, vs);
    var t := PollOnce(s, vs).slots;
    CatalogueKeys(t);
    assert Target(vs).Keys + Target(vs).Keys == Target(vs).Keys;
    SizeOfSubset(Target(vs).Keys, Keys(s) + Target(vs).Keys);
    PollIsExact(t, vs);
    SelfDiffIsEmpty(PollOnce(t, vs).events, Target(vs));
  }

  lemma SelfDiffIsEmpty(events: seq<SyncTask>, c: Catalogue)
    requires ExactDiff(events, c, c)
    ensures events == []
  {
    assert |events| > 0 ==> Tells(events[0], c, c);
  }

  // ---- The code --------------------------------------------------------------------------------------------------

  class PollState {
    const table: Table<Snap>
    /** Everything written to the event pipe. */
    var events: seq<SyncTask>

    constructor ()
      ensures fresh(table.slots) && table.slots.Length == 8192 && events == []
      ensures forall i :: 0 <= i < MAX_SNAPSHOTS ==> table.slots[i].Free?
    {
      table := new Table<Snap>(MAX_SNAPSHOTS);
      events := [];
    }

    ghost function State(): Poll
      reads this, table.slots
    {
      Poll(table.slots[..], events)
    }

    method SnapshotMarkAllUnseen()
      modifies table.slots
      ensures table.slots[..] == MarkAllUnseen(old(table.slots[..]))
    {
      for i := 0 to table.slots.Length
        invariant forall j :: 0 <= j < table.slots.Length ==>
          table.slots[j] == if j < i then Unseen(old(table.slots[..])[j]) else old(table.slots[..])[j]
      {
        table.slots[i] := Unseen(table.slots[i]);
      }
    }

    /** The loop body of poll_scan_path once the task is built; emit_task never fails on a live pipe. */
    method ObserveTask(task: SyncTask)
      modifies this`events, table.slots
      ensures State() == Observe(old(State()), task)
    {
      var idx := table.Lookup(task.relPath);
      if idx < 0 {
        idx := table.Allocate();
        if idx >= 0 {
          events := events + [task.(eventType := EVENT_CREATE)];
          table.slots[idx] := Used(task.relPath, SnapOf(task));
        }
      } else {
        table.slots[idx] := Used(task.relPath, table.slots[idx].value.(seen := true));
        if Differs(table.slots[idx].value, task) {
          events := events + [task.(eventType := EVENT_MODIFY)];
          table.slots[idx] := Used(task.relPath, SnapOf(task));
        }
      }
    }

    method PollScanPath(root: text, dir: text, entries: seq<Entry>, ghost prefix: seq<text>)
      modifies this`events, table.slots
      ensures State() == ObserveAll(old(State()), Visit(root, dir, prefix, entries))
      decreases entries
    {
      hide Observe, ObserveAll, Visit, JoinPath, GetRelative;
      ghost var start := State();
      NothingVisited(start, root, dir, prefix, entries);
      for i := 0 to |entries|
        invariant State() == ObserveAll(start, Visit(root, dir, prefix, entries[..i]))
      {
        var e := entries[i];
        ghost var before := Visit(root, dir, prefix, entries[..i]);
        VisitNext(root, dir, prefix, entries, i);
        var path := JoinPath(dir, e.name);
        if path.None? {
          continue;
        }
        var rel := GetRelative(root, path.value);
        if rel.None? {
          continue;
        }
        var task := BuildTask(EVENT_MODIFY, path.value, rel.value, e.node);
        ObserveTask(task);
        ghost var self := Visited(prefix + [e.name], task);
        ObserveNext(start, before, self);
        if task.isDir {
          PollScanPath(root, path.value, e.node.entries, prefix + [e.name]);
          ObserveConcat(start, before + [self], Visit(root, path.value, prefix + [e.name], e.node.entries));
        }
      }
      assert entries[..|entries|] == entries;
    }

    /** poll_scan_and_emit_changes. */
    method PollScanAndEmitChanges(root: text, entries: seq<Entry>) returns (emitted: seq<SyncTask>)
      modifies this`events, table.slots
      ensures table.slots[..] == PollOnce(old(table.slots[..]), Visit(root, root, [], entries)).slots
      ensures emitted == PollOnce(old(table.slots[..]), Visit(root, root, [], entries)).events
      ensures events == old(events) + emitted
    {
      hide Observe, Visit;
      var earlier := events;
      events := [];
      SnapshotMarkAllUnseen();
      PollScanPath(root, root, entries, []);
      ghost var scanned := State();
      for i := 0 to table.slots.Length
        invariant State() == Sweep(scanned, i)
      {
        var slot := table.slots[i];
        if slot.Used? && !slot.value.seen {
          events := events + [DeleteTask(slot.key, slot.value)];
          table.slots[i] := Free;
        }
      }
      emitted := events;
      events := earlier + emitted;
    }
  }

  lemma NothingVisited(p: Poll, root: text, dir: text, prefix: seq<text>, entries: seq<Entry>)
    ensures ObserveAll(p, Visit(root, dir, prefix, entries[..0])) == p
  {
  }

  lemma ObserveNext(p: Poll, vs: seq<Visited>, v: Visited)
    ensures ObserveAll(p, vs + [v]) == Observe(ObserveAll(p, vs), v.task)
  {
    assert (vs + [v])[..|vs|] == vs;
  }

  lemma {:induction false} ObserveConcat(p: Poll, vs: seq<Visited>, ws: seq<Visited>)
    ensures ObserveAll(p, vs + ws) == ObserveAll(ObserveAll(p, vs), ws)
  {
    hide Observe;
    ConcatTail(vs, []);
    if ws == [] {
      assert vs + ws == vs;
    } else {
      var init, last := ws[..|ws| - 1], ws[|ws| - 1];
      ObserveConcat(p, vs, init);
      assert ws == init + [last];
      ConcatAssociative(vs, init, [last]);
      ObserveNext(p, vs + init, last);
      ObserveNext(ObserveAll(p, vs), init, last);
    }
  }

  /**
   * The whole poll of a tree: exact if and only if the old paths and those of the tree together fit
   * the table, and then replayable, one slot a path, and followed by silence. Which paths the tree
   * contributes, VisitedIffAccepted says.
   */
  lemma PollOfTree(s: seq<Slot<Snap>>, root: text, entries: seq<Entry>)
    requires Unique(s) && |s| == 8192 && WellNamed(entries)
    ensures var vs := Visit(root, root, [], entries); var r := PollOnce(s, vs);
      var fits := |Keys(s) + Target(vs).Keys| <= 8192;
      && (ExactDiff(r.events, CatalogueOf(s), Target(vs)) <==> fits)
      && Unique(r.slots) && Within(CatalogueOf(r.slots), Target(vs))
      && ExactDiff(r.events, CatalogueOf(s), CatalogueOf(r.slots))
      && (fits ==>
        && CatalogueOf(r.slots) == Target(vs)
        && Replay(CatalogueOf(s), r.events) == Target(vs)
        && PollOnce(r.slots, vs).events == [])
  {
    var vs := Visit(root, root, [], entries);
    forall k, l | 0 <= k < l < |vs|
      ensures vs[k].task.relPath != vs[l].task.relPath
    {
      VisitedDistinct(root, root, [], entries, k, l);
    }
    hide PollOnce, ExactDiff, Replay, Visit, Within, Keys, CatalogueOf, Target;
    PollTracks(s, vs);
    PollIsExact(s, vs);
    if |Keys(s) + Target(vs).Keys| <= 8192 {
      SecondPollIsSilent(s, vs);
    }
  }

  // ---- What the tables and events say about the tree -----------------------------------------------------

  lemma {:induction false} TargetHas(vs: seq<Visited>, k: nat)
    requires DistinctPaths(vs) && k < |vs|
    ensures Get(Target(vs), vs[k].task.relPath) == Some(MetaOf(vs[k].task))
  {
    if k < |vs| - 1 {
      TargetHas(vs[..|vs| - 1], k);
    }
  }

  lemma {:induction false} TargetOnlyHas(vs: seq<Visited>, q: text) returns (k: nat)
    requires q in Target(vs)
    ensures k < |vs| && vs[k].task.relPath == q
  {
    k := |vs| - 1;
    if vs[k].task.relPath != q {
      k := TargetOnlyHas(vs[..k], q);
    }
  }

  /** Under well-named entries, names lead to one node only. */
  lemma {:induction false} ReachesOnce(entries: seq<Entry>, names: seq<text>, a: Node, b: Node)
    requires WellNamed(entries) && Reaches(entries, names, a) && Reaches(entries, names, b)
    ensures a == b
    decreases |names|
  {
    hide EntryName;
    var i :| 0 <= i < |entries| && Leads(entries[i], names, a);
    var j :| 0 <= j < |entries| && Leads(entries[j], names, b);
    assert entries[i].name == entries[j].name;
    assert i == j;
    if |names| > 1 {
      ReachesOnce(entries[i].node.entries, names[1..], a, b);
    }
  }

  lemma VisitsDistinct(root: text, entries: seq<Entry>)
    requires WellNamed(entries)
    ensures DistinctPaths(Visit(root, root, [], entries))
  {
    var vs := Visit(root, root, [], entries);
    forall k, l | 0 <= k < l < |vs|
      ensures vs[k].task.relPath != vs[l].task.relPath
    {
      VisitedDistinct(root, root, [], entries, k, l);
    }
  }

  /** The catalogue of a tree lists each accepted node under its path, with its size, time and mode. */
  lemma TargetOfTree(root: text, entries: seq<Entry>, names: seq<text>, node: Node)
    requires WellNamed(entries) && Reaches(entries, names, node) && forall n :: n in names ==> EntryName(n)
    requires Passes(root, names)
    ensures Get(Target(Visit(root, root, [], entries)), Unsplit(names)) ==
      Some(Meta(node.size, node.mtime, node.mode))
  {
    hide Passes, EntryName, WellNamed, Target, Visit, Reaches;
    var vs := Visit(root, root, [], entries);
    VisitedIffAccepted(root, entries, names, node);
    VisitsDistinct(root, entries);
    var k: nat :| k < |vs| && vs[k].names == names;
    var found := VisitedIsReal(root, root, [], entries, k);
    assert names[0..] == names;
    ReachesOnce(entries, names, node, found);
    TargetHas(vs, k);
  }

  /** It lists nothing else. */
  lemma TargetIsReal(root: text, entries: seq<Entry>, q: text) returns (names: seq<text>, node: Node)
    requires WellNamed(entries) && q in Target(Visit(root, root, [], entries))
    ensures names != [] && Reaches(entries, names, node) && Passes(root, names) && q == Unsplit(names)
  {
    hide Passes, EntryName, WellNamed, Target, Visit, Reaches;
    var vs := Visit(root, root, [], entries);
    var k := TargetOnlyHas(vs, q);
    node := VisitedIsReal(root, root, [], entries, k);
    names := vs[k].names;
    assert names[0..] == names;
    VisitedBelow(root, root, [], entries, k);
    VisitedIffAccepted(root, entries, names, node);
  }

  lemma {:induction false} ScanEvents(s: seq<Slot<Snap>>, vs: seq<Visited>, j: nat) returns (k: nat)
    requires j < |ObserveAll(Poll(s, []), vs).events|
    ensures var e := ObserveAll(Poll(s, []), vs).events[j];
      k < |vs| && e == vs[k].task.(eventType := e.eventType) && 1 <= e.eventType <= 2
  {
    hide Find, FirstFree, Differs, SnapOf;
    var init := vs[..|vs| - 1];
    if j < |ObserveAll(Poll(s, []), init).events| {
      k := ScanEvents(s, init, j);
    } else {
      k := |vs| - 1;
    }
  }

  /** The sweep reports slots that were not seen. */
  lemma {:induction false} SweepEvents(p: Poll, n: nat, j: nat) returns (i: nat)
    requires n <= |p.slots| && j < |Sweep(p, n).events|
    ensures j < |p.events| ==> Sweep(p, n).events[j] == p.events[j]
    ensures j >= |p.events| ==>
      && i < |p.slots| && p.slots[i].Used? && !p.slots[i].value.seen
      && Sweep(p, n).events[j] == DeleteTask(p.slots[i].key, p.slots[i].value)
    ensures |p.events| <= |Sweep(p, n).events| && forall l :: n <= l < |p.slots| ==> Sweep(p, n).slots[l] == p.slots[l]
  {
    i := 0;
    if n > 0 {
      SweepKeepsRest(p, n - 1);
      if j < |Sweep(p, n - 1).events| {
        i := SweepEvents(p, n - 1, j);
      } else {
        i := n - 1;
      }
    }
    SweepKeepsRest(p, n);
  }

  lemma {:induction false} SweepKeepsRest(p: Poll, n: nat)
    requires n <= |p.slots|
    ensures |p.events| <= |Sweep(p, n).events| && forall l :: n <= l < |p.slots| ==> Sweep(p, n).slots[l] == p.slots[l]
  {
    if n > 0 {
      SweepKeepsRest(p, n - 1);
    }
  }

  /**
   * Every event of a poll, by its kind: 1 for a path that is new and 2 for one that was known carry
   * the data of a node of the tree, 3 for one that is gone carries what the table last had of it.
   */
  lemma EventIsReal(s: seq<Slot<Snap>>, root: text, entries: seq<Entry>, j: nat) returns (names: seq<text>, node: Node)
    requires Unique(s) && WellNamed(entries) && j < |PollOnce(s, Visit(root, root, [], entries)).events|
    ensures var e := PollOnce(s, Visit(root, root, [], entries)).events[j];
      && 1 <= e.eventType <= 3
      && (e.eventType == 1 <==> e.relPath !in View(s))
      && (e.eventType <= 2 ==> names != [] && Reaches(entries, names, node) && Reports(e, root, names, node))
      && (e.eventType == 3 ==>
        && e.relPath in View(s) && e.relPath !in CatalogueOf(PollOnce(s, Visit(root, root, [], entries)).slots)
        && e.srcPath == View(s)[e.relPath].srcPath && e.isDir == View(s)[e.relPath].isDir
        && e.oldRelPath == [] && e.fileSize == e.mode == e.mtime == e.retryCount == 0)
  {
    hide Visit, Target, Sweep, ObserveAll, Observe, Reaches, Reports, WellNamed, EntryName, View, CatalogueOf, Unique;
    hide ExactDiff, Scanned, DistinctPaths;
    var vs, marked := Visit(root, root, [], entries), MarkAllUnseen(s);
    names, node := [], Node(0, 0, 0, []);
    VisitsDistinct(root, entries);
    MarkKeeps(s);
    var c := ScanTracks(marked, vs, |vs|);
    assert vs[..|vs|] == vs;
    var p := ObserveAll(Poll(marked, []), vs);
    var i := SweepEvents(p, |p.slots|, j);
    PollTells(s, vs, j);
    if j < |p.events| {
      var k := ScanEvents(marked, vs, j);
      node := VisitedIsReal(root, root, [], entries, k);
      names := vs[k].names;
      assert names[0..] == names;
      ReportsWhatever(vs[k].task, root, names, node, p.events[j].eventType);
    } else {
      GoneIsOld(s, c, p, i);
    }
  }

  lemma ReportsWhatever(t: SyncTask, root: text, names: seq<text>, node: Node, eventType: int)
    requires names != [] && Reports(t, root, names, node)
    ensures Reports(t.(eventType := eventType), root, names, node)
  {
  }

  lemma PollTells(s: seq<Slot<Snap>>, vs: seq<Visited>, j: nat)
    requires Unique(s) && DistinctPaths(vs) && j < |PollOnce(s, vs).events|
    ensures var r := PollOnce(s, vs); var e := r.events[j];
      && 1 <= e.eventType <= 3
      && (e.eventType == 1 <==> e.relPath !in View(s)) && (e.eventType == 3 <==> e.relPath !in CatalogueOf(r.slots))
  {
    hide PollOnce, DistinctPaths, Unique, View, Target, Within, Replay;
    PollTracks(s, vs);
    var r := PollOnce(s, vs);
    assert Tells(r.events[j], CatalogueOf(s), CatalogueOf(r.slots));
  }

  /** An unseen slot holds what the table had before, but for the mark. */
  lemma GoneIsOld(s: seq<Slot<Snap>>, c: Catalogue, p: Poll, i: nat)
    requires Scanned(MarkAllUnseen(s), c, p) && i < |p.slots| && p.slots[i].Used? && !p.slots[i].value.seen
    ensures p.slots[i].key in View(s) && p.slots[i].value == View(s)[p.slots[i].key].(seen := false)
  {
    hide ExactDiff, Find, MarkAllUnseen;
    var k := p.slots[i].key;
    ViewAt(p.slots, i);
    assert SlotOk(MarkAllUnseen(s), c, p.slots, k);
    FindInMarked(s, k);
    UnseenKeys(s);
  }

  /** During a scan, an unseen slot is as before, and a seen one as the task says or as before. */
  lemma {:induction false} ScanSlots(s: seq<Slot<Snap>>, vs: seq<Visited>, i: nat) returns (k: nat)
    requires i < |s| && forall l :: 0 <= l < |s| && s[l].Used? ==> !s[l].value.seen
    ensures |ObserveAll(Poll(s, []), vs).slots| == |s|
    ensures var t := ObserveAll(Poll(s, []), vs).slots[i];
      t.Used? ==>
        if !t.value.seen then t == s[i]
        else
          && k < |vs| && t.key == vs[k].task.relPath && SnapMeta(t.value) == MetaOf(vs[k].task)
          && (t.value == SnapOf(vs[k].task) ||
            (s[i].Used? && s[i].key == t.key && t.value == s[i].value.(seen := true)))
  {
    hide Find, FirstFree;
    k := 0;
    if vs != [] {
      k := ScanSlots(s, vs[..|vs| - 1], i);
      if ObserveAll(Poll(s, []), vs).slots[i] != ObserveAll(Poll(s, []), vs[..|vs| - 1]).slots[i] {
        k := |vs| - 1;
      }
    }
  }

  lemma {:induction false} SweepLeaves(p: Poll, n: nat, i: nat)
    requires n <= |p.slots| && i < |p.slots|
    ensures Sweep(p, n).slots[i] == if i < n then Swept(p.slots[i]) else p.slots[i]
  {
    if n > 0 {
      SweepLeaves(p, n - 1, i);
      SweepLeaves(p, n - 1, n - 1);
    }
  }

  /**
   * Every slot after a poll is that of a node of the tree, with its size, time and mode. Whether it
   * is a directory and its place are recorded with the first of these data.
   */
  lemma SlotIsReal(s: seq<Slot<Snap>>, root: text, entries: seq<Entry>, i: nat)
    returns (names: seq<text>, node: Node)
    requires Unique(s) && WellNamed(entries)
    requires i < |PollOnce(s, Visit(root, root, [], entries)).slots|
    requires PollOnce(s, Visit(root, root, [], entries)).slots[i].Used?
    ensures var slot := PollOnce(s, Visit(root, root, [], entries)).slots[i]; var v := slot.value;
      && names != [] && Reaches(entries, names, node) && slot.key == Unsplit(names)
      && v.seen && v.size == node.size && v.mtime == node.mtime && v.mode == node.mode
      && if v.srcPath == root + Glue(root) + Unsplit(names) && (v.isDir <==> node.mode / 0x1000 % 0x10 == 4) then true
        else i < |s| && s[i].Used? && s[i].key == slot.key && v == s[i].value.(seen := true)
  {
    hide Visit, Reaches, WellNamed, EntryName, Find, FirstFree, Observe, ObserveAll, Sweep;
    var vs, marked := Visit(root, root, [], entries), MarkAllUnseen(s);
    UnseenKeys(s);
    var p := ObserveAll(Poll(marked, []), vs);
    ScanKeepsSize(Poll(marked, []), vs);
    SweepLeaves(p, |p.slots|, i);
    var k := ScanSlots(marked, vs, i);
    node := VisitedIsReal(root, root, [], entries, k);
    names := vs[k].names;
    assert names[0..] == names;
  }

  lemma {:induction false} ScanKeepsSize(p: Poll, vs: seq<Visited>)
    ensures |ObserveAll(p, vs).slots| == |p.slots|
  {
    hide Find, FirstFree;
    if vs != [] {
      ScanKeepsSize(p, vs[..|vs| - 1]);
    }
  }
}
