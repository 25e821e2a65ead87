/**
 * The client from source tree to mirror (src/monitor.c, src/transfer.c): the event pipe, the
 * debouncing scheduler, the task queue and one worker, against eager copying.
 */
module Mirror {
  import opened Bytes
  import opened Tasks
  import opened Slots
  import opened Scheduler

  /** File contents by relative path. */
  type Tree = map<text, text>

  /**
   * `dirty` holds the paths with a change no event has announced yet, `eager` is the mirror an
   * undelayed copy at each announcement would give. The queue holds the scheduler's pushes, of
   * which `taken` have been taken, and tasks that were put back; `changed` says whether the path in
   * work has changed since the worker took it.
   */
  datatype World = World(
    source: Tree, mirror: Tree, eager: Tree, touched: set<text>, dirty: set<text>,
    pipe: seq<SyncTask>, sched: Sched, queue: seq<SyncTask>, taken: nat, busy: Option<SyncTask>, changed: bool)

  datatype Step =
    | Change(path: text, content: Option<text>)
    | Announce(event: SyncTask)
    | Deliver(updateAt: int, flushAt: int)
    | Tick(flushAt: int)
    | Take
    | Finish(torn: Option<text>, failed: bool)

  ghost function Events(w: World): seq<SyncTask> { w.sched.events + w.pipe }

  /** An event kind that fits the file's present state: DELETE exactly for absent files. */
  ghost predicate Fits(t: SyncTask, source: Tree) { t.eventType == EVENT_DELETE <==> t.relPath !in source }

  /**
   * Events concern regular files, carry no old path, and come in pipe order. An event may be out of
   * date when it is emitted as long as another one for the path is due. A copy fails only if the
   * file changed while it was made.
   */
  ghost predicate Enabled(w: World, step: Step) {
    match step
    case Change(_, _) => true
    case Announce(t) =>
      && Known(t) && t.oldRelPath == [] && !t.isDir && t.retryCount == 0 && t.arrival == |Events(w)|
      && (!Fits(t, w.source) ==> t.relPath in w.dirty)
    case Deliver(_, _) => w.pipe != []
    case Tick(_) => true
    case Take => w.busy.None? && w.queue != []
    case Finish(_, failed) => w.busy.Some? && (failed ==> w.changed && w.busy.value.eventType != EVENT_DELETE)
  }

  ghost function Set(tree: Tree, path: text, content: Option<text>): Tree {
    if content.Some? then tree[path := content.value] else tree - {path}
  }

  ghost function Get(tree: Tree, path: text): Option<text> {
    if path in tree then Some(tree[path]) else None
  }

  /**
   * What a sync_task_local without failures leaves in the mirror: a deleted path goes to the trash,
   * a vanished source is skipped, a stable file is copied. A file that changed while it was being
   * copied may leave any bytes (`torn`), or none. Local.SyncIsSynced is the link to the code.
   */
  ghost function Synced(w: World, t: SyncTask, torn: Option<text>): Tree {
    if t.eventType == EVENT_DELETE then w.mirror - {t.relPath}
    else if w.changed then (if torn.Some? then w.mirror[t.relPath := torn.value] else w.mirror)
    else if t.relPath !in w.source then w.mirror
    else w.mirror[t.relPath := w.source[t.relPath]]
  }

  /** What goes back into the queue. */
  function Again(t: SyncTask, failed: bool): seq<SyncTask> { if failed then Requeued(t) else [] }

  /** The scheduler's new pushes enter the queue. */
  ghost function Schedule(w: World, sched: Sched): World
    requires w.sched.pushed <= sched.pushed
  {
    w.(sched := sched, queue := w.queue + sched.pushed[|w.sched.pushed|..])
  }

  lemma {:induction false} FlushAddsPushes(s: Sched, n: nat, w: When)
    requires n <= |s.pending|
    ensures s.pushed <= FlushUpTo(s, n, w).pushed
  {
    if n > 0 {
      FlushAddsPushes(s, n - 1, w);
    }
  }

  ghost function Apply(w: World, step: Step, debounce: int): World
    requires Enabled(w, step)
  {
    match step
    case Change(p, c) =>
      w.(source := Set(w.source, p, c), touched := w.touched + {p}, dirty := w.dirty + {p},
         changed := w.changed || (w.busy.Some? && w.busy.value.relPath == p))
    case Announce(t) =>
      w.(pipe := w.pipe + [t], touched := w.touched + {t.relPath},
         dirty := if Fits(t, w.source) then w.dirty - {t.relPath} else w.dirty,
         eager := Set(w.eager, t.relPath, Get(w.source, t.relPath)))
    case Deliver(updateAt, flushAt) =>
      var mid := Receive(w.sched, w.pipe[0], updateAt);
      ReceiveAppends(w.sched, w.pipe[0], updateAt);
      FlushAddsPushes(mid, |mid.pending|, Stable(flushAt, debounce));
      Schedule(w, Flush(mid, Stable(flushAt, debounce))).(pipe := w.pipe[1..])
    case Tick(flushAt) =>
      FlushAddsPushes(w.sched, |w.sched.pending|, Stable(flushAt, debounce));
      Schedule(w, Flush(w.sched, Stable(flushAt, debounce)))
    case Take =>
      w.(busy := Some(w.queue[0]), queue := w.queue[1..], taken := w.taken +
        (if w.queue[0].retryCount == 0 then 1 else 0), changed := false)
    case Finish(torn, failed) =>
      w.(mirror := Synced(w, w.busy.value, torn), busy := None, queue := w.queue + Again(w.busy.value, failed))
  }

  // ---- The invariant --------------------------------------------------------------------------------

  ghost predicate IsLast(events: seq<SyncTask>, j: nat, p: text) {
    && j < |events| && events[j].relPath == p
    && forall l :: j < l < |events| ==> events[l].relPath != p
  }

  ghost predicate Plain(events: seq<SyncTask>) {
    forall j :: 0 <= j < |events| ==>
      Known(events[j]) && events[j].oldRelPath == [] && events[j].retryCount == 0 && events[j].arrival == j
  }

  /** The tasks that have not been tried yet, in order. */
  function Untried(queue: seq<SyncTask>): seq<SyncTask> {
    if queue == [] then []
    else
      var init, last := queue[..|queue| - 1], queue[|queue| - 1];
      if last.retryCount == 0 then Untried(init) + [last] else Untried(init)
  }

  /** The task was pushed, and only a copy is ever tried again. */
  ghost predicate Genuine(w: World, t: SyncTask) {
    && (t.retryCount > 0 ==> t.eventType != EVENT_DELETE)
    && t.arrival < |w.sched.events| && w.sched.events[t.arrival] == t.(retryCount := 0)
  }

  ghost predicate Good(w: World) {
    && Scheduler.Inv(w.sched) && Plain(Events(w))
    && w.taken <= |w.sched.pushed| && Untried(w.queue) == w.sched.pushed[w.taken..]
    && (forall t :: t in w.queue ==> Genuine(w, t))
    && (w.busy.Some? ==> Genuine(w, w.busy.value))
    && (w.busy.Some? && w.busy.value.retryCount == 0 ==> w.taken > 0 && w.busy.value == w.sched.pushed[w.taken - 1])
  }

  ghost predicate Queued(w: World, arrival: nat) { exists t :: t in w.queue && t.arrival == arrival }

  /** The worker has still to deal with the event, for the first time or again. */
  ghost predicate Outstanding(w: World, arrival: nat) {
    Queued(w, arrival) || (w.busy.Some? && w.busy.value.arrival == arrival)
  }

  ghost predicate HasLast(events: seq<SyncTask>, p: text) { exists j: nat :: IsLast(events, j, p) }

  ghost predicate AnnouncedBy(w: World, j: nat)
    requires j < |Events(w)|
  {
    var t := Events(w)[j];
    IsLast(Events(w), j, t.relPath) && t.relPath !in w.dirty ==>
      Fits(t, w.source) && Get(w.eager, t.relPath) == Get(w.source, t.relPath)
  }

  /** The last event of an announced path fits the source, and the eager mirror has caught up. */
  ghost predicate Announced(w: World) {
    && (forall p :: p in w.touched ==> p in w.dirty || HasLast(Events(w), p))
    && (forall j :: 0 <= j < |Events(w)| ==> AnnouncedBy(w, j))
  }

  /** If the file in work changed meanwhile, it is dirty, or its last event, if it has been pushed, is still queued. */
  ghost predicate WillComeBack(w: World) {
    w.busy.Some? && w.changed && w.busy.value.relPath !in w.dirty ==>
      forall k :: 0 <= k < |w.sched.pushed| && IsLast(Events(w), w.sched.pushed[k].arrival, w.busy.value.relPath) ==>
        Queued(w, w.sched.pushed[k].arrival)
  }

  ghost predicate MirroredBy(w: World, t: SyncTask) {
    IsLast(Events(w), t.arrival, t.relPath) && t.relPath !in w.dirty ==>
      Get(w.mirror, t.relPath) == Get(w.source, t.relPath)
  }

  /** A path whose last event has been dealt with is mirrored; what has not been taken is outstanding. */
  ghost predicate Mirrored(w: World) {
    forall k :: 0 <= k < |w.sched.pushed| ==>
      Outstanding(w, w.sched.pushed[k].arrival) || MirroredBy(w, w.sched.pushed[k])
  }

  ghost predicate Invariant(w: World) { Good(w) && Announced(w) && WillComeBack(w) && Mirrored(w) }

  ghost predicate Start(w: World) {
    && w.sched == Initial() && w.pipe == [] && w.queue == [] && w.taken == 0 && w.busy.None? && w.touched == w.dirty
  }

  lemma StartInvariant(w: World)
    requires Start(w)
    ensures Invariant(w)
  {
    InitialInv();
  }

  // ---- The queue -------------------------------------------------------------------------------------

  lemma {:induction false} UntriedConcat(queue: seq<SyncTask>, more: seq<SyncTask>)
    ensures Untried(queue + more) == Untried(queue) + Untried(more)
  {
    if more == [] {
      assert queue + more == queue;
    } else {
      var init, last := more[..|more| - 1], more[|more| - 1];
      assert (queue + more)[..|queue + more| - 1] == queue + init;
      UntriedConcat(queue, init);
      ConcatAssociative(Untried(queue), Untried(init), [last]);
    }
  }

  lemma {:induction false} AllUntried(more: seq<SyncTask>)
    requires forall t :: t in more ==> t.retryCount == 0
    ensures Untried(more) == more
  {
    if more != [] {
      AllUntried(more[..|more| - 1]);
      assert more[|more| - 1] in more;
    }
  }

  lemma UntriedOne(t: SyncTask)
    ensures Untried([t]) == if t.retryCount == 0 then [t] else []
  {
    assert [t][..0] == [] && Untried([]) == [];
  }

  lemma {:induction false} UntriedIn(queue: seq<SyncTask>, t: SyncTask)
    requires t in Untried(queue)
    ensures t in queue
  {
    if t != queue[|queue| - 1] {
      UntriedIn(queue[..|queue| - 1], t);
    }
  }

  /** What has not been taken is queued. */
  lemma NotTaken(w: World, k: nat)
    requires Good(w) && w.taken <= k < |w.sched.pushed|
    ensures Queued(w, w.sched.pushed[k].arrival)
  {
    assert w.sched.pushed[k] == w.sched.pushed[w.taken..][k - w.taken];
    UntriedIn(w.queue, w.sched.pushed[k]);
  }

  // ---- Every step keeps the invariant ------------------------------------------------------------------

  /** A scheduler step moves events from the pipe to the table and the queue, and no further. */
  ghost predicate Moves(w: World, r: World) {
    && Events(r) == Events(w) && w.sched.events <= r.sched.events && w.sched.pushed <= r.sched.pushed
    && r == w.(pipe := r.pipe, sched := r.sched, queue := w.queue + r.sched.pushed[|w.sched.pushed|..])
  }

  lemma MovesKeepGood(w: World, r: World)
    requires Good(w) && Moves(w, r) && Scheduler.Inv(r.sched)
    ensures Good(r)
  {
    hide Scheduler.Inv, Untried, Genuine;
    var n, more := |w.sched.pushed|, r.sched.pushed[|w.sched.pushed|..];
    PushesAreUntried(r, n);
    UntriedConcat(w.queue, more);
    AllUntried(more);
    assert w.sched.pushed[w.taken..] + more == r.sched.pushed[w.taken..];
    forall t | t in r.queue
      ensures Genuine(r, t)
    {
      assert t in w.queue || t in more;
      StillGenuine(w, r, t);
    }
    if r.busy.Some? {
      StillGenuine(w, r, r.busy.value);
    }
  }

  lemma StillGenuine(w: World, r: World, t: SyncTask)
    requires w.sched.events <= r.sched.events
    ensures Genuine(w, t) ==> Genuine(r, t)
  {
  }

  lemma PushesAreUntried(r: World, n: nat)
    requires Scheduler.Inv(r.sched) && Plain(Events(r)) && n <= |r.sched.pushed|
    ensures forall t :: t in r.sched.pushed[n..] ==> t.retryCount == 0 && Genuine(r, t)
  {
    PushesAreEvents(r);
    hide Scheduler.Inv;
    forall t | t in r.sched.pushed[n..]
      ensures t.retryCount == 0 && Genuine(r, t)
    {
      var i :| 0 <= i < |r.sched.pushed[n..]| && r.sched.pushed[n..][i] == t;
      assert r.sched.pushed[n + i] == t && Events(r)[t.arrival] == t;
    }
  }

  lemma PushesAreEvents(w: World)
    requires Scheduler.Inv(w.sched)
    ensures forall k :: 0 <= k < |w.sched.pushed| ==>
      w.sched.pushed[k].arrival < |w.sched.events| && w.sched.events[w.sched.pushed[k].arrival] == w.sched.pushed[k]
  {
    forall k | 0 <= k < |w.sched.pushed|
      ensures w.sched.pushed[k].arrival < |w.sched.events|
      ensures w.sched.events[w.sched.pushed[k].arrival] == w.sched.pushed[k]
    {
      assert PushOk(w.sched, k);
    }
  }

  /** More in the queue, the rest as before. */
  lemma QueueGrows(w: World, r: World)
    requires w.queue <= r.queue && r.busy == w.busy
    ensures forall a: nat :: Queued(w, a) ==> Queued(r, a)
    ensures forall a: nat :: Outstanding(w, a) ==> Outstanding(r, a)
  {
    forall a: nat | Queued(w, a)
      ensures Queued(r, a)
    {
      var t :| t in w.queue && t.arrival == a;
      assert t in r.queue;
    }
  }

  lemma MovesKeep(w: World, r: World)
    requires Invariant(w) && Moves(w, r) && Scheduler.Inv(r.sched)
    ensures Invariant(r)
  {
    MovesKeepGood(w, r);
    QueueGrows(w, r);
    hide Scheduler.Inv, IsLast, HasLast, Good, Queued;
    forall j | 0 <= j < |Events(w)|
      ensures AnnouncedBy(r, j)
    {
      assert AnnouncedBy(w, j);
    }
    forall k | |w.sched.pushed| <= k < |r.sched.pushed|
      ensures Queued(r, r.sched.pushed[k].arrival)
    {
      NewlyQueued(w, r, k);
    }
    forall k | 0 <= k < |w.sched.pushed|
      ensures r.sched.pushed[k] == w.sched.pushed[k]
      ensures Outstanding(r, r.sched.pushed[k].arrival) || MirroredBy(r, r.sched.pushed[k])
    {
      assert Outstanding(w, w.sched.pushed[k].arrival) || MirroredBy(w, w.sched.pushed[k]);
    }
  }

  lemma NewlyQueued(w: World, r: World, k: nat)
    requires Moves(w, r) && |w.sched.pushed| <= k < |r.sched.pushed|
    ensures Queued(r, r.sched.pushed[k].arrival)
  {
    var n := |w.sched.pushed|;
    assert r.queue[|w.queue| + (k - n)] == r.sched.pushed[n..][k - n] == r.sched.pushed[k];
    assert r.sched.pushed[k] in r.queue;
  }

  lemma TickMoves(w: World, flushAt: int, debounce: int)
    requires Good(w)
    ensures var r := Apply(w, Tick(flushAt), debounce); Moves(w, r) && Scheduler.Inv(r.sched)
  {
    FlushKeepsInv(w.sched, |w.sched.pending|, Stable(flushAt, debounce));
    FlushIsExact(w.sched, |w.sched.pending|, Stable(flushAt, debounce));
  }

  lemma DeliverMoves(w: World, updateAt: int, flushAt: int, debounce: int)
    requires Good(w) && w.pipe != []
    ensures var r := Apply(w, Deliver(updateAt, flushAt), debounce); Moves(w, r) && Scheduler.Inv(r.sched)
  {
    hide Scheduler.Inv, Receive, FlushUpTo;
    var t, n := w.pipe[0], |w.sched.events|;
    assert Events(w)[n] == t;
    ReceiveKeepsInv(w.sched, t, updateAt);
    ReceiveAppends(w.sched, t, updateAt);
    var mid := Receive(w.sched, t, updateAt);
    FlushKeepsInv(mid, |mid.pending|, Stable(flushAt, debounce));
    FlushIsExact(mid, |mid.pending|, Stable(flushAt, debounce));
    assert w.sched.events + [t] + w.pipe[1..] == w.sched.events + w.pipe;
  }

  lemma ChangeKeeps(w: World, p: text, c: Option<text>, debounce: int)
    requires Invariant(w)
    ensures Invariant(Apply(w, Change(p, c), debounce))
  {
    hide Scheduler.Inv, IsLast, HasLast, Queued;
    var r := Apply(w, Change(p, c), debounce);
    forall j | 0 <= j < |Events(w)|
      ensures AnnouncedBy(r, j)
    {
      assert AnnouncedBy(w, j);
    }
    forall k | 0 <= k < |w.sched.pushed|
      ensures Outstanding(r, w.sched.pushed[k].arrival) || MirroredBy(r, w.sched.pushed[k])
    {
      assert Outstanding(w, w.sched.pushed[k].arrival) || MirroredBy(w, w.sched.pushed[k]);
      SameOutstanding(w, r, w.sched.pushed[k].arrival);
    }
    forall k | 0 <= k < |w.sched.pushed|
      ensures Queued(r, w.sched.pushed[k].arrival) <==> Queued(w, w.sched.pushed[k].arrival)
    {
      SameQueue(w, r, w.sched.pushed[k].arrival);
    }
    assert Good(r) by { SameWork(w, r); }
  }

  lemma SameQueue(w: World, r: World, a: nat)
    requires r.queue == w.queue
    ensures Queued(r, a) <==> Queued(w, a)
  {
  }

  lemma SameOutstanding(w: World, r: World, a: nat)
    requires r.queue == w.queue && r.busy == w.busy
    ensures Outstanding(r, a) <==> Outstanding(w, a)
  {
  }

  lemma SameWork(w: World, r: World)
    requires Good(w) && r.sched == w.sched && r.queue == w.queue && r.taken == w.taken && r.busy == w.busy
    requires Plain(Events(r))
    ensures Good(r)
  {
    hide Scheduler.Inv, Plain, Untried;
    assert forall t :: Genuine(w, t) ==> Genuine(r, t);
  }

  lemma LastAfterAnnounce(events: seq<SyncTask>, t: SyncTask, j: nat, p: text)
    ensures IsLast(events + [t], j, p) <==> if p == t.relPath then j == |events| else IsLast(events, j, p)
  {
    var next := events + [t];
    assert next[|events|] == t;
    assert forall l :: 0 <= l < |events| ==> next[l] == events[l];
  }

  lemma AnnounceKeeps(w: World, t: SyncTask, debounce: int)
    requires Invariant(w) && Enabled(w, Announce(t))
    ensures Invariant(Apply(w, Announce(t), debounce))
  {
    hide Scheduler.Inv;
    var r, events := Apply(w, Announce(t), debounce), Events(w);
    assert Events(r) == events + [t];
    hide IsLast;
    forall p | p in r.touched
      ensures p in r.dirty || HasLast(Events(r), p)
    {
      if p == t.relPath {
        LastAfterAnnounce(events, t, |events|, p);
      } else if p !in w.dirty {
        var j: nat :| IsLast(events, j, p);
        LastAfterAnnounce(events, t, j, p);
      }
    }
    forall j | 0 <= j < |Events(r)|
      ensures AnnouncedBy(r, j)
    {
      LastAfterAnnounce(events, t, j, Events(r)[j].relPath);
      assert j < |events| ==> AnnouncedBy(w, j);
    }
    forall k | 0 <= k < |w.sched.pushed|
      ensures Outstanding(r, w.sched.pushed[k].arrival) || MirroredBy(r, w.sched.pushed[k])
    {
      AnnounceMirrors(w, t, debounce, k);
    }
    AnnounceKeepsComing(w, r, t);
    assert Good(r) by { SameWork(w, r); }
  }

  lemma AnnounceMirrors(w: World, t: SyncTask, debounce: int, k: nat)
    requires Invariant(w) && Enabled(w, Announce(t)) && k < |w.sched.pushed|
    ensures var r := Apply(w, Announce(t), debounce);
      Outstanding(r, w.sched.pushed[k].arrival) || MirroredBy(r, w.sched.pushed[k])
  {
    PushesAreEvents(w);
    hide Scheduler.Inv, IsLast, HasLast;
    var r, push := Apply(w, Announce(t), debounce), w.sched.pushed[k];
    assert Events(r) == Events(w) + [t];
    LastAfterAnnounce(Events(w), t, push.arrival, push.relPath);
    SameOutstanding(w, r, push.arrival);
    assert Outstanding(w, push.arrival) || MirroredBy(w, push);
  }

  lemma AnnounceKeepsComing(w: World, r: World, t: SyncTask)
    requires Good(w) && WillComeBack(w) && t.arrival == |Events(w)| && Events(r) == Events(w) + [t]
    requires r.sched == w.sched && r.queue == w.queue && r.busy == w.busy && r.changed == w.changed
    requires r.dirty == w.dirty || (r.dirty == w.dirty - {t.relPath})
    ensures WillComeBack(r)
  {
    if r.busy.Some? && r.changed && r.busy.value.relPath !in r.dirty {
      PushesAreEvents(w);
      hide Scheduler.Inv, IsLast;
      var p := w.busy.value.relPath;
      forall k | 0 <= k < |w.sched.pushed| && IsLast(Events(r), w.sched.pushed[k].arrival, p)
        ensures Queued(r, w.sched.pushed[k].arrival)
      {
        LastAfterAnnounce(Events(w), t, w.sched.pushed[k].arrival, p);
        SameQueue(w, r, w.sched.pushed[k].arrival);
      }
    }
  }

  lemma FinishKeepsGood(w: World, torn: Option<text>, failed: bool, debounce: int)
    requires Good(w) && Enabled(w, Finish(torn, failed))
    ensures Good(Apply(w, Finish(torn, failed), debounce))
  {
    hide Scheduler.Inv, Plain;
    var r, t := Apply(w, Finish(torn, failed), debounce), w.busy.value;
    UntriedConcat(w.queue, Again(t, failed));
    UntriedOne(t.(retryCount := t.retryCount + 1));
    forall x | x in r.queue
      ensures Genuine(r, x)
    {
      assert x in w.queue || x == t.(retryCount := t.retryCount + 1);
      assert Genuine(w, t);
    }
  }

  /** The path of a push that is dealt with when the worker finishes is mirrored from then on. */
  lemma FinishMirrors(w: World, torn: Option<text>, failed: bool, debounce: int, k: nat)
    requires Invariant(w) && Enabled(w, Finish(torn, failed)) && k < |w.sched.pushed|
    requires !Outstanding(Apply(w, Finish(torn, failed), debounce), w.sched.pushed[k].arrival)
    ensures MirroredBy(Apply(w, Finish(torn, failed), debounce), w.sched.pushed[k])
  {
    var r, t, push := Apply(w, Finish(torn, failed), debounce), w.busy.value, w.sched.pushed[k];
    QueueGrows(w.(busy := None), r);
    PushesAreEvents(w);
    assert Ordered(w.sched) && Genuine(w, t);
    hide Scheduler.Inv, Ordered;
    assert Events(w)[t.arrival] == t.(retryCount := 0) && Events(w)[push.arrival] == push;
    assert Queued(w, push.arrival) ==>
      Queued(w.(busy := None), push.arrival) by { SameQueue(w, w.(busy := None), push.arrival); }
    assert AnnouncedBy(w, push.arrival);
    if push.relPath == t.relPath && !w.changed && t.eventType == EVENT_DELETE {
      DeleteIsLatest(w, k);
    }
  }

  /** A delete is taken in the order of pushing, so what was pushed for its path after it is still queued. */
  lemma DeleteIsLatest(w: World, k: nat)
    requires Good(w) && w.busy.Some? && w.busy.value.eventType == EVENT_DELETE
    requires k < |w.sched.pushed| && w.sched.pushed[k].relPath == w.busy.value.relPath
    requires !Queued(w, w.sched.pushed[k].arrival)
    ensures w.sched.pushed[k] == w.busy.value || !IsLast(Events(w), w.sched.pushed[k].arrival, w.busy.value.relPath)
  {
    PushesAreEvents(w);
    assert Ordered(w.sched) && Genuine(w, w.busy.value);
    hide Scheduler.Inv, Ordered;
    if k >= w.taken {
      NotTaken(w, k);
    } else if k < w.taken - 1 {
      var t := w.busy.value;
      assert w.sched.pushed[k].arrival < t.arrival &&
        Events(w)[t.arrival].relPath == t.relPath by { EarlierPush(w.sched, k, w.taken - 1); }
    }
  }

  lemma EarlierPush(s: Sched, k: nat, l: nat)
    requires Ordered(s) && k < l < |s.pushed| && s.pushed[k].relPath == s.pushed[l].relPath
    ensures s.pushed[k].arrival < s.pushed[l].arrival
  {
  }

  lemma FinishKeeps(w: World, torn: Option<text>, failed: bool, debounce: int)
    requires Invariant(w) && Enabled(w, Finish(torn, failed))
    ensures Invariant(Apply(w, Finish(torn, failed), debounce))
  {
    var r := Apply(w, Finish(torn, failed), debounce);
    FinishKeepsGood(w, torn, failed, debounce);
    forall k | 0 <= k < |w.sched.pushed| && !Outstanding(r, w.sched.pushed[k].arrival)
      ensures MirroredBy(r, w.sched.pushed[k])
    {
      FinishMirrors(w, torn, failed, debounce, k);
    }
    hide Scheduler.Inv, Good;
    forall j | 0 <= j < |Events(w)|
      ensures AnnouncedBy(r, j)
    {
      assert AnnouncedBy(w, j);
    }
  }

  lemma {:induction false} UntriedFront(queue: seq<SyncTask>)
    requires queue != []
    ensures Untried(queue) == (if queue[0].retryCount == 0 then [queue[0]] else []) + Untried(queue[1..])
  {
    UntriedConcat([queue[0]], queue[1..]);
    UntriedOne(queue[0]);
    assert [queue[0]] + queue[1..] == queue;
  }

  lemma TakeKeepsGood(w: World, debounce: int)
    requires Good(w) && Enabled(w, Take)
    ensures Good(Apply(w, Take, debounce))
  {
    hide Scheduler.Inv, Plain;
    var r := Apply(w, Take, debounce);
    UntriedFront(w.queue);
    assert w.queue[0] in w.queue && Genuine(w, w.queue[0]);
    forall x | x in r.queue
      ensures Genuine(r, x)
    {
      assert x in w.queue && Genuine(w, x);
    }
    if w.queue[0].retryCount == 0 {
      assert w.sched.pushed[w.taken..] == [w.queue[0]] + Untried(w.queue[1..]);
      assert w.sched.pushed[w.taken] == w.queue[0] && w.sched.pushed[w.taken + 1..] == w.sched.pushed[w.taken..][1..];
    }
  }

  lemma TakeKeeps(w: World, debounce: int)
    requires Invariant(w) && Enabled(w, Take)
    ensures Invariant(Apply(w, Take, debounce))
  {
    var r := Apply(w, Take, debounce);
    TakeKeepsGood(w, debounce);
    hide Scheduler.Inv, IsLast, HasLast, Good;
    forall j | 0 <= j < |Events(w)|
      ensures AnnouncedBy(r, j)
    {
      assert AnnouncedBy(w, j);
    }
    forall k | 0 <= k < |w.sched.pushed|
      ensures Outstanding(r, w.sched.pushed[k].arrival) || MirroredBy(r, w.sched.pushed[k])
    {
      assert Outstanding(w, w.sched.pushed[k].arrival) || MirroredBy(w, w.sched.pushed[k]);
      TakenIsBusy(w, r, w.sched.pushed[k].arrival);
    }
  }

  lemma TakenIsBusy(w: World, r: World, a: nat)
    requires w.busy.None? && w.queue != [] && r.busy == Some(w.queue[0]) && r.queue == w.queue[1..]
    ensures Outstanding(w, a) ==> Outstanding(r, a)
  {
    if Queued(w, a) {
      var t :| t in w.queue && t.arrival == a;
      assert t == w.queue[0] || t in w.queue[1..];
    }
  }

  lemma StepKeepsInvariant(w: World, step: Step, debounce: int)
    requires Invariant(w) && Enabled(w, step)
    ensures Invariant(Apply(w, step, debounce))
  {
    var r := Apply(w, step, debounce);
    match step {
      case Change(p, c) => ChangeKeeps(w, p, c, debounce);
      case Announce(t) => AnnounceKeeps(w, t, debounce);
      case Deliver(updateAt, flushAt) =>
        DeliverMoves(w, updateAt, flushAt, debounce);
        MovesKeep(w, r);
      case Tick(flushAt) =>
        TickMoves(w, flushAt, debounce);
        MovesKeep(w, r);
      case Take => TakeKeeps(w, debounce);
      case Finish(torn, failed) => FinishKeeps(w, torn, failed, debounce);
    }
  }

  ghost predicate Reaches(w: World, steps: seq<Step>, debounce: int, r: World)
    decreases steps
  {
    if steps == [] then w == r
      else Enabled(w, steps[0]) && Reaches(Apply(w, steps[0], debounce), steps[1..], debounce, r)
  }

  lemma {:induction false} ReachableInvariant(w: World, steps: seq<Step>, debounce: int, r: World)
    requires Invariant(w) && Reaches(w, steps, debounce, r)
    ensures Invariant(r)
    decreases steps
  {
    hide Invariant, Apply;
    if steps != [] {
      StepKeepsInvariant(w, steps[0], debounce);
      ReachableInvariant(Apply(w, steps[0], debounce), steps[1..], debounce, r);
    }
  }

  ghost predicate Quiescent(w: World) {
    && w.pipe == [] && w.busy.None? && w.queue == []
    && forall i :: 0 <= i < |w.sched.pending| ==> w.sched.pending[i].Free?
  }

  /**
   * Debouncing preserves meaning: in every run from any initial mirror, once everything announced
   * has been worked off, each touched path without an unannounced change is in the mirror exactly
   * as in the source and as eager copying would have left it, unless its last event met a full table.
   */
  lemma DebouncingPreservesMeaning(w: World, steps: seq<Step>, debounce: int, r: World, p: text)
    requires Start(w) && Reaches(w, steps, debounce, r) && Quiescent(r)
    requires p in r.touched && p !in r.dirty
    requires forall j: nat :: IsLast(r.sched.events, j, p) && j < |r.sched.fates| ==> !r.sched.fates[j].Dropped?
    ensures Get(r.mirror, p) == Get(r.source, p) == Get(r.eager, p)
  {
    StartInvariant(w);
    ReachableInvariant(w, steps, debounce, r);
    assert Events(r) == r.sched.events;
    hide Reaches, Start, Invariant;
    AtRest(r, p);
  }

  /** The events of a run in the order of their announcement. */
  function Announcements(steps: seq<Step>): seq<SyncTask> {
    if steps == [] then [] else (if steps[0].Announce? then [steps[0].event] else []) + Announcements(steps[1..])
  }

  /** Events come from announcements only and none is lost on the way to the scheduler. */
  lemma {:induction false} EventsAnnounced(w: World, steps: seq<Step>, debounce: int, r: World)
    requires Reaches(w, steps, debounce, r)
    ensures Events(r) == Events(w) + Announcements(steps)
    decreases steps
  {
    hide Apply;
    if steps != [] {
      var next := Apply(w, steps[0], debounce);
      StepAnnounces(w, steps[0], debounce);
      EventsAnnounced(next, steps[1..], debounce, r);
      ConcatAssociative(Events(w), if steps[0].Announce? then [steps[0].event] else [], Announcements(steps[1..]));
    }
  }

  lemma StepAnnounces(w: World, step: Step, debounce: int)
    requires Enabled(w, step)
    ensures Events(Apply(w, step, debounce)) == Events(w) + if step.Announce? then [step.event] else []
  {
    hide Receive, FlushUpTo;
    match step {
      case Deliver(updateAt, flushAt) =>
        var mid := Receive(w.sched, w.pipe[0], updateAt);
        ReceiveAppends(w.sched, w.pipe[0], updateAt);
        FlushKeepsEvents(mid, |mid.pending|, Stable(flushAt, debounce));
        assert w.sched.events + [w.pipe[0]] + w.pipe[1..] == Events(w);
      case Tick(flushAt) =>
        FlushKeepsEvents(w.sched, |w.sched.pending|, Stable(flushAt, debounce));
      case Announce(t) => ConcatAssociative(w.sched.events, w.pipe, [t]);
      case _ =>
    }
  }

  /**
   * While the announced paths are no more than the table has slots, there is no exception: each
   * touched path without an unannounced change is in the mirror as in the source.
   */
  lemma FewPathsAreMirrored(w: World, steps: seq<Step>, debounce: int, r: World, p: text)
    requires Start(w) && Reaches(w, steps, debounce, r) && Quiescent(r)
    requires p in r.touched && p !in r.dirty && |Paths(Announcements(steps))| <= MAX_PENDING_TASKS
    ensures Get(r.mirror, p) == Get(r.source, p) == Get(r.eager, p)
  {
    hide Reaches, Paths;
    StartInvariant(w);
    ReachableInvariant(w, steps, debounce, r);
    EventsAnnounced(w, steps, debounce, r);
    assert Events(w) == [] && [] + Announcements(steps) == Announcements(steps) && Events(r) == r.sched.events;
    FewPathsDropNothing(r.sched);
    hide Start, Invariant;
    DebouncingPreservesMeaning(w, steps, debounce, r, p);
  }

  lemma AtRest(r: World, p: text)
    requires Invariant(r) && Quiescent(r) && p in r.touched && p !in r.dirty
    requires forall j: nat :: IsLast(r.sched.events, j, p) && j < |r.sched.fates| ==> !r.sched.fates[j].Dropped?
    ensures Get(r.mirror, p) == Get(r.source, p) == Get(r.eager, p)
  {
    assert Events(r) == r.sched.events;
    var j: nat :| IsLast(Events(r), j, p);
    LastIsPushed(r.sched, j, p);
    var k: nat :| k < |r.sched.pushed| && r.sched.pushed[k].arrival == j;
    PushesAreEvents(r);
    assert !Outstanding(r, j);
    hide Scheduler.Inv, IsLast;
    assert AnnouncedBy(r, j) && MirroredBy(r, r.sched.pushed[k]);
  }

  /** With an empty table, the last event of a path has been pushed or dropped. */
  lemma LastIsPushed(s: Sched, j: nat, p: text)
    requires Scheduler.Inv(s) && Plain(s.events) && IsLast(s.events, j, p)
    requires forall i :: 0 <= i < |s.pending| ==> s.pending[i].Free?
    requires !s.fates[j].Dropped?
    ensures exists k :: 0 <= k < |s.pushed| && s.pushed[k].arrival == j
  {
    EachEventOnce(s, j);
    match s.fates[j] {
      case Superseded(_) => assert false;
      case Cancelled(_) => assert false;
      case _ =>
    }
  }

  // ---- The scheduler in it ------------------------------------------------------------------------------

  /** The wake-ups of the scheduler in a run. */
  ghost function WakesOf(w: World, steps: seq<Step>, debounce: int): seq<Wake>
    decreases steps
  {
    if steps == [] || !Enabled(w, steps[0]) then []
    else
      var rest := WakesOf(Apply(w, steps[0], debounce), steps[1..], debounce);
      match steps[0]
      case Deliver(updateAt, flushAt) => [Received(w.pipe[0], updateAt, flushAt)] + rest
      case Tick(flushAt) => [Timeout(flushAt)] + rest
      case _ => rest
  }

  /** The scheduler does in a run exactly what the code does in these wake-ups. */
  lemma {:induction false} ScheduledAsInCode(w: World, steps: seq<Step>, debounce: int, r: World)
    requires Invariant(w) && Reaches(w, steps, debounce, r)
    ensures r.sched == Run(w.sched, WakesOf(w, steps, debounce), debounce)
    decreases steps
  {
    hide Invariant, Receive, FlushUpTo;
    if steps != [] {
      var next, wakes := Apply(w, steps[0], debounce), WakesOf(w, steps, debounce);
      StepKeepsInvariant(w, steps[0], debounce);
      ScheduledAsInCode(next, steps[1..], debounce, r);
      if steps[0].Deliver? {
        NoExitInPipe(w);
        assert wakes[1..] == WakesOf(next, steps[1..], debounce);
      } else if steps[0].Tick? {
        assert wakes[1..] == WakesOf(next, steps[1..], debounce);
      }
    }
  }

  lemma NoExitInPipe(w: World)
    requires Invariant(w) && w.pipe != []
    ensures w.pipe[0].eventType != EVENT_EXIT
  {
    assert Events(w)[|w.sched.events|] == w.pipe[0];
  }

  /** A change while a file is being copied can tear the copy, and make it fail. */
  lemma ChangeCanTear(w: World, c: Option<text>, torn: text, debounce: int)
    requires w.busy.Some? && w.busy.value.eventType != EVENT_DELETE
    ensures var step, finish := Change(w.busy.value.relPath, c), Finish(Some(torn), true);
      && Enabled(w, step) && Enabled(Apply(w, step, debounce), finish)
      && Get(Apply(Apply(w, step, debounce), finish, debounce).mirror, w.busy.value.relPath) == Some(torn)
  {
  }

  // ---- Getting to rest -----------------------------------------------------------------------------------

  /** Late enough for everything pending. */
  lemma {:induction false} AllDue(pending: seq<Slot<Pending>>, debounce: int) returns (at: int)
    ensures forall i :: 0 <= i < |pending| && pending[i].Used? ==> Due(Stable(at, debounce), pending[i].value)
  {
    at := 0;
    if pending != [] {
      var last := pending[|pending| - 1];
      at := AllDue(pending[..|pending| - 1], debounce);
      if last.Used? && last.value.lastUpdate + debounce > at {
        at := last.value.lastUpdate + debounce;
      }
    }
  }

  ghost predicate NothingPending(s: Sched) { forall i :: 0 <= i < |s.pending| ==> s.pending[i].Free? }

  lemma TickEmpties(w: World, at: int, debounce: int)
    requires Good(w)
    requires forall i :: 0 <= i < |w.sched.pending| && w.sched.pending[i].Used? ==>
      Due(Stable(at, debounce), w.sched.pending[i].value)
    ensures NothingPending(Apply(w, Tick(at), debounce).sched)
  {
    hide Scheduler.Inv;
    FlushIsExact(w.sched, |w.sched.pending|, Stable(at, debounce));
  }

  /** How much the worker has still to do before the queue is empty. */
  ghost function Work(w: World): nat { 2 * |w.queue| + if w.busy.Some? then 1 else 0 }

  /**
   * What the client does next if the source stays as it is: it empties pipe, table and queue in
   * this order of weight.
   */
  lemma NextMove(w: World, debounce: int) returns (step: Step)
    requires Invariant(w) && !Quiescent(w)
    ensures Enabled(w, step) && !step.Change? && !step.Announce?
    ensures var r := Apply(w, step, debounce);
      && r.source == w.source && r.touched == w.touched && r.dirty == w.dirty
      && (|r.pipe| < |w.pipe| ||
        (|r.pipe| == |w.pipe| && NothingPending(r.sched) && !NothingPending(w.sched)) ||
        (|r.pipe| == |w.pipe| && NothingPending(r.sched) == NothingPending(w.sched) && Work(r) < Work(w)))
  {
    hide Scheduler.Inv, Receive, FlushUpTo, Announced, WillComeBack, Mirrored;
    if w.busy.Some? {
      step := Finish(None, false);
    } else if w.queue != [] {
      step := Take;
    } else if w.pipe != [] {
      step := Deliver(0, 0);
    } else {
      var at := AllDue(w.sched.pending, debounce);
      step := Tick(at);
      TickEmpties(w, at, debounce);
    }
  }

  /**
   * From every reachable world the client comes to rest if the source stays as it is; so the rest
   * DebouncingPreservesMeaning speaks of is always within reach.
   */
  lemma {:induction false} ComesToRest(w: World, debounce: int) returns (steps: seq<Step>, r: World)
    requires Invariant(w)
    ensures Reaches(w, steps, debounce, r) && Quiescent(r) && Announcements(steps) == []
    ensures r.source == w.source && r.touched == w.touched && r.dirty == w.dirty
    decreases |w.pipe|, !NothingPending(w.sched), Work(w)
  {
    hide Invariant, Apply;
    if Quiescent(w) {
      steps, r := [], w;
    } else {
      var step := NextMove(w, debounce);
      StepKeepsInvariant(w, step, debounce);
      steps, r := ComesToRest(Apply(w, step, debounce), debounce);
      assert ([step] + steps)[1..] == steps;
      steps := [step] + steps;
    }
  }

  lemma {:induction false} ReachesConcat(w: World, first: seq<Step>, mid: World, next: seq<Step>, r: World,
          debounce: int)
    requires Reaches(w, first, debounce, mid) && Reaches(mid, next, debounce, r)
    ensures Reaches(w, first + next, debounce, r)
    ensures Announcements(first + next) == Announcements(first) + Announcements(next)
    decreases first
  {
    hide Apply, Enabled;
    ConcatTail(first, next);
    if first != [] {
      ReachesConcat(Apply(w, first[0], debounce), first[1..], mid, next, r, debounce);
      ConcatAssociative(if first[0].Announce? then [first[0].event]
        else [], Announcements(first[1..]), Announcements(next));
    }
  }

  /**
   * Whatever has happened, with no more announced paths than slots: if the source stays as it is,
   * the client comes to a rest in which every touched path without an unannounced change is in the
   * mirror as in the source.
   */
  lemma MirrorCatchesUp(w: World, steps: seq<Step>, debounce: int, now: World) returns (more: seq<Step>, r: World)
    requires Start(w) && Reaches(w, steps, debounce, now) && |Paths(Announcements(steps))| <= MAX_PENDING_TASKS
    ensures Reaches(now, more, debounce, r) && Quiescent(r) && r.source == now.source
    ensures forall p :: p in now.touched && p !in now.dirty ==> Get(r.mirror, p) == Get(now.source, p)
  {
    hide Reaches, Paths, Quiescent;
    StartInvariant(w);
    ReachableInvariant(w, steps, debounce, now);
    hide Start, Invariant;
    more, r := ComesToRest(now, debounce);
    ReachesConcat(w, steps, now, more, r, debounce);
    assert Announcements(steps) + [] == Announcements(steps);
    forall p | p in now.touched && p !in now.dirty
      ensures Get(r.mirror, p) == Get(now.source, p)
    {
      FewPathsAreMirrored(w, steps + more, debounce, r, p);
    }
  }
}
