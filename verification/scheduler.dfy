/** The debouncing scheduler of src/transfer.c: its abstract state and what it keeps over every run. */
module Scheduler {
  import opened Bytes
  import opened Tasks
  import opened Slots
  import opened Queue

  const MAX_PENDING_TASKS := 4096

  // ---- What one event and one flush do ---------------------------------------------------------

  predicate Immediate(t: SyncTask) { t.eventType == EVENT_DELETE || t.eventType == EVENT_RENAME }

  /** should_debounce. */
  predicate Debounced(t: SyncTask) {
    t.eventType == EVENT_MODIFY || t.eventType == EVENT_CREATE || t.eventType == EVENT_FULLSCAN
  }

  /** Whether a DELETE or RENAME event withdraws what is pending for `path`. */
  predicate Withdraws(t: SyncTask, path: text) {
    t.relPath == path || (t.oldRelPath != [] && t.oldRelPath == path)
  }

  /** Whether an event replaces or withdraws what is pending for `path`. */
  predicate Concerns(t: SyncTask, path: text) { t.relPath == path || (Immediate(t) && Withdraws(t, path)) }

  datatype Pending = Pending(task: SyncTask, lastUpdate: int)

  /**
   * What became of an event: `later` is the event responsible, `at` the position of the push; a
   * dropped one met a table with entries for the paths `full` after `made` pushes.
   */
  datatype Fate =
    | Waiting
    | Pushed(at: nat)
    | Superseded(later: nat)
    | Cancelled(later: nat)
    | Dropped(full: set<text>, made: nat)

  /** The pending table, every push so far, and the events behind them with their update times and fates. */
  datatype Sched = Sched(
    pending: seq<Slot<Pending>>, pushed: seq<SyncTask>,
    events: seq<SyncTask>, times: seq<int>, fates: seq<Fate>)

  ghost function Initial(): Sched { Sched(seq(MAX_PENDING_TASKS, _ => Free), [], [], [], []) }

  /** The fates once the event behind the pending entry of `key`, if there is one, has fate `f`. */
  ghost function Judge(s: Sched, key: text, f: Fate): seq<Fate> {
    var i := Find(s.pending, key);
    if i >= 0 && s.pending[i].value.task.arrival < |s.fates| then s.fates[s.pending[i].value.task.arrival := f]
      else s.fates
  }

  /** pending_remove on account of event `later`. */
  ghost function Remove(s: Sched, key: text, later: nat): Sched {
    s.(pending := Clear(s.pending, key), fates := Judge(s, key, Cancelled(later)))
  }

  ghost function Push(s: Sched, t: SyncTask): Sched {
    s.(pushed := s.pushed + [t],
       fates := if t.arrival < |s.fates| then s.fates[t.arrival := Pushed(|s.pushed|)] else s.fates)
  }

  /** pending_update_or_insert for the event received last. */
  ghost function Update(s: Sched, t: SyncTask, now: int): Sched
    requires |s.fates| > 0
  {
    if Find(s.pending, t.relPath) < 0 && FirstFree(s.pending) < 0
    then s.(fates := s.fates[|s.fates| - 1 := Dropped(Keys(s.pending), |s.pushed|)])
    else s.(pending := Put(s.pending, t.relPath, Pending(t, now)),
      fates := Judge(s, t.relPath, Superseded(|s.fates| - 1)))
  }

  ghost function Append(s: Sched, t: SyncTask, now: int): Sched {
    s.(events := s.events + [t], times := s.times + [now], fates := s.fates + [Waiting])
  }

  /** What scheduler_thread_main does with an event other than EXIT. */
  ghost function Receive(s: Sched, t: SyncTask, now: int): Sched {
    var s0 := Append(s, t, now);
    if Immediate(t) then
      var s1 := Remove(s0, t.relPath, |s.events|);
      var s2 := if t.oldRelPath != [] then Remove(s1, t.oldRelPath, |s.events|) else s1;
      Push(s2, t)
    else if Debounced(t) then Update(s0, t, now)
    else Push(s0, t)
  }

  datatype When = Stable(now: int, debounce: int) | Always

  predicate Due(w: When, p: Pending) { w.Always? || w.now - p.lastUpdate >= w.debounce }

  ghost function FlushOne(s: Sched, i: nat, w: When): Sched
    requires i < |s.pending|
  {
    if s.pending[i].Used? && Due(w, s.pending[i].value)
    then Push(s.(pending := s.pending[i := Free]), s.pending[i].value.task)
    else s
  }

  /** pending_flush_stable_tasks or pending_flush_all, as far as the first `n` slots. */
  ghost function FlushUpTo(s: Sched, n: nat, w: When): (r: Sched)
    requires n <= |s.pending|
    ensures |r.pending| == |s.pending|
  {
    if n == 0 then s else FlushOne(FlushUpTo(s, n - 1, w), n - 1, w)
  }

  ghost function Flush(s: Sched, w: When): Sched { FlushUpTo(s, |s.pending|, w) }

  // ---- The invariant ------------------------------------------------------------------------------

  predicate Known(t: SyncTask) { 1 <= t.eventType <= 5 }

  /** The event is of one of the five kinds, or nothing is pending for its path. */
  ghost predicate Tame(s: Sched, t: SyncTask) { Known(t) || t.relPath !in Keys(s.pending) }

  ghost predicate EventOk(s: Sched, j: nat)
    requires j < |s.events|
  {
    s.events[j].arrival == j
  }

  ghost predicate EntryOk(s: Sched, i: nat)
    requires i < |s.pending| && s.pending[i].Used?
  {
    var t := s.pending[i].value.task;
    && s.pending[i].key == t.relPath && Debounced(t)
    && t.arrival < |s.events| == |s.times| == |s.fates|
    && t == s.events[t.arrival] && s.pending[i].value.lastUpdate == s.times[t.arrival]
    && s.fates[t.arrival] == Waiting
  }

  ghost predicate PushOk(s: Sched, k: nat)
    requires k < |s.pushed|
  {
    var a := s.pushed[k].arrival;
    a < |s.events| == |s.fates| && s.pushed[k] == s.events[a] && s.fates[a] == Pushed(k)
  }

  /**
   * The entry of event `i` was still in the table when event `j` arrived after `made` pushes: it
   * left it later, if at all.
   */
  ghost predicate InTable(events: seq<SyncTask>, fates: seq<Fate>, i: nat, j: nat, made: nat)
    requires i < |events| == |fates|
  {
    i < j && Debounced(events[i]) &&
    match fates[i]
    case Waiting => true
    case Pushed(k) => k >= made
    case Superseded(b) => b > j
    case Cancelled(b) => b > j
    case Dropped(_, _) => false
  }

  /** When event `j` arrived, every slot was taken, by the entries of earlier events on the paths `full`. */
  ghost predicate TableFull(events: seq<SyncTask>, fates: seq<Fate>, j: nat, full: set<text>, made: nat)
    requires |events| == |fates|
  {
    |full| == MAX_PENDING_TASKS &&
    forall q :: q in full ==>
      exists i: nat :: i < |events| && events[i].relPath == q && InTable(events, fates, i, j, made)
  }

  /** Later steps let entries leave the table only later. */
  lemma TableWasFull(events: seq<SyncTask>, fates: seq<Fate>, after: seq<SyncTask>, later: seq<Fate>, j: nat,
          full: set<text>, made: nat)
    requires |events| == |fates| <= |after| == |later| && events <= after && TableFull(events, fates, j, full, made)
    requires forall i: nat :: i < |events| && InTable(events, fates, i, j, made) ==> InTable(after, later, i, j, made)
    ensures TableFull(after, later, j, full, made)
  {
    hide InTable;
    forall q | q in full
      ensures exists i: nat :: i < |after| && after[i].relPath == q && InTable(after, later, i, j, made)
    {
      var i: nat :| i < |events| && events[i].relPath == q && InTable(events, fates, i, j, made);
      assert after[i].relPath == q;
    }
  }

  /** Event `b` is the first one behind event `j` that concerns its path. */
  ghost predicate NextOn(events: seq<SyncTask>, j: nat, b: nat)
    requires j < |events|
  {
    && j < b < |events| && Concerns(events[b], events[j].relPath)
    && forall l :: j < l < b ==> !Concerns(events[l], events[j].relPath)
  }

  /** The recorded fate of event `j` is what the tables and the other events show. */
  ghost predicate Justified(s: Sched, j: nat)
    requires j < |s.events| == |s.times| == |s.fates|
  {
    var t := s.events[j];
    match s.fates[j]
    case Waiting => At(s.pending, t.relPath) == Some(Pending(t, s.times[j]))
    case Pushed(k) => k < |s.pushed| && s.pushed[k] == t
    case Superseded(b) => Debounced(t) && NextOn(s.events, j, b) && Debounced(s.events[b])
    case Cancelled(b) => Debounced(t) && NextOn(s.events, j, b) && Immediate(s.events[b])
    case Dropped(full, made) =>
      Debounced(t) && t.relPath !in full && made <= |s.pushed| && TableFull(s.events, s.fates, j, full, made)
  }

  /** Pushes for one path are in arrival order, and what is pending arrived after them. */
  ghost predicate Ordered(s: Sched) {
    && (forall k, l :: 0 <= k < l < |s.pushed| && s.pushed[k].relPath == s.pushed[l].relPath ==>
      s.pushed[k].arrival < s.pushed[l].arrival)
    && (forall k, i :: 0 <= k < |s.pushed| && 0 <= i < |s.pending| && s.pending[i].Used? ==>
      s.pushed[k].relPath == s.pending[i].key ==> s.pushed[k].arrival < s.pending[i].value.task.arrival)
  }

  /** No event before `n` but behind a pending entry concerns its path. */
  ghost predicate LatestUpTo(s: Sched, n: nat)
    requires n <= |s.events|
  {
    forall i, j :: 0 <= i < |s.pending| && s.pending[i].Used? && s.pending[i].value.task.arrival < j < n
      ==> !Concerns(s.events[j], s.pending[i].key)
  }

  ghost predicate Latest(s: Sched) { LatestUpTo(s, |s.events|) }

  /** Everything but the fates of the events in `open`. */
  ghost predicate CoreExcept(s: Sched, open: set<nat>) {
    && |s.events| == |s.times| == |s.fates| && |s.pending| == MAX_PENDING_TASKS && Unique(s.pending)
    && (forall j :: 0 <= j < |s.events| ==> EventOk(s, j))
    && (forall i :: 0 <= i < |s.pending| && s.pending[i].Used? ==> EntryOk(s, i))
    && (forall k :: 0 <= k < |s.pushed| ==> PushOk(s, k))
    && (forall j :: 0 <= j < |s.events| && j !in open ==> Justified(s, j))
    && Ordered(s)
  }

  ghost predicate Inv(s: Sched) { CoreExcept(s, {}) && Latest(s) }

  lemma InitialInv()
    ensures Inv(Initial())
  {
  }

  // ---- Elementary updates ---------------------------------------------------------------------------

  /** An entry leaves the table to be pushed, or on account of the newest event, which is open. */
  ghost predicate Leaves(s: Sched, f: Fate, open: set<nat>) {
    f.Waiting? || ((f.Superseded? || f.Cancelled?) && f.later == |s.events| - 1 && f.later in open)
  }

  /** Emptying a slot keeps everything, apart from the fate of the event whose entry goes. */
  lemma TakeOut(s: Sched, i: nat, f: Fate, open: set<nat>)
    requires CoreExcept(s, open) && i < |s.pending| && s.pending[i].Used? && Leaves(s, f, open)
    ensures var a := s.pending[i].value.task.arrival;
      CoreExcept(s.(pending := s.pending[i := Free], fates := s.fates[a := f]), open + {a})
  {
    hide Find;
    assert EntryOk(s, i);
    var a := s.pending[i].value.task.arrival;
    var r := s.(pending := s.pending[i := Free], fates := s.fates[a := f]);
    assert Unique(r.pending) by { WriteIsUpdate(s.pending, i, Free); }
    forall l | 0 <= l < |r.pending| && r.pending[l].Used?
      ensures EntryOk(r, l) && r.pending[l] == s.pending[l]
    {
      assert r.pending[l] == s.pending[l] && EntryOk(s, l);
    }
    forall k | 0 <= k < |r.pushed|
      ensures PushOk(r, k)
    {
      assert PushOk(s, k);
    }
    forall j | 0 <= j < |r.events|
      ensures EventOk(r, j)
      ensures j !in open + {a} ==> Justified(r, j)
    {
      assert EventOk(s, j);
      if j !in open + {a} {
        TakeOutJustifies(s, i, f, j, open);
      }
    }
  }

  lemma TakeOutJustifies(s: Sched, i: nat, f: Fate, j: nat, open: set<nat>)
    requires CoreExcept(s, open) && i < |s.pending| && s.pending[i].Used? && Leaves(s, f, open)
    requires j < |s.events| && j !in open && j != s.pending[i].value.task.arrival
    ensures Justified(s.(pending := s.pending[i := Free], fates := s.fates[s.pending[i].value.task.arrival := f]), j)
  {
    hide Find, Ordered, PushOk, TableFull;
    assert EntryOk(s, i) && EventOk(s, j) && EventOk(s, s.pending[i].value.task.arrival) && Justified(s, j);
    if s.fates[j].Dropped? {
      TableWasFull(s.events, s.fates, s.events, s.fates[s.pending[i].value.task.arrival := f], j, s.fates[j].full,
        s.fates[j].made);
    }
    WriteAt(s.pending, i, Free, s.events[j].relPath);
    ViewAt(s.pending, i);
  }

  /** Pushing the open event `t` settles its fate. */
  lemma PushSettles(s: Sched, t: SyncTask, open: set<nat>)
    requires CoreExcept(s, open) && t.arrival < |s.events| && s.events[t.arrival] == t && s.fates[t.arrival] == Waiting
    requires forall k :: 0 <= k < |s.pushed| && s.pushed[k].relPath == t.relPath ==> s.pushed[k].arrival < t.arrival
    requires forall i :: 0 <= i < |s.pending| && s.pending[i].Used? ==>
      s.pending[i].value.task.arrival != t.arrival &&
        (s.pending[i].key == t.relPath ==> t.arrival < s.pending[i].value.task.arrival)
    ensures CoreExcept(Push(s, t), open - {t.arrival})
  {
    hide Find;
    var r := Push(s, t);
    forall l | 0 <= l < |r.pending| && r.pending[l].Used?
      ensures EntryOk(r, l)
    {
      assert EntryOk(s, l);
    }
    forall k | 0 <= k < |r.pushed|
      ensures PushOk(r, k)
    {
      if k < |s.pushed| {
        assert PushOk(s, k);
      }
    }
    forall j | 0 <= j < |r.events|
      ensures EventOk(r, j)
      ensures j !in open - {t.arrival} ==> Justified(r, j)
    {
      assert EventOk(s, j);
      if j !in open - {t.arrival} {
        PushJustifies(s, t, j, open);
      }
    }
  }

  lemma PushJustifies(s: Sched, t: SyncTask, j: nat, open: set<nat>)
    requires CoreExcept(s, open) && t.arrival < |s.events| && s.events[t.arrival] == t && s.fates[t.arrival] == Waiting
    requires j < |s.events| && j !in open - {t.arrival}
    requires forall i :: 0 <= i < |s.pending| && s.pending[i].Used? ==> s.pending[i].value.task.arrival != t.arrival
    ensures Justified(Push(s, t), j)
  {
    hide Find, Ordered, PushOk, TableFull;
    assert j !in open ==> Justified(s, j);
    if j !in open && s.fates[j].Dropped? {
      TableWasFull(s.events, s.fates, s.events, Push(s, t).fates, j, s.fates[j].full, s.fates[j].made);
    }
  }

  /** Storing the newest event, which is open, in a free slot settles its fate. */
  lemma StoreSettles(s: Sched, i: nat, t: SyncTask, now: int, open: set<nat>)
    requires CoreExcept(s, open) && i < |s.pending| && s.pending[i].Free? && t.relPath !in Keys(s.pending)
    requires t.arrival == |s.events| - 1 && s.events[t.arrival] == t && s.fates[t.arrival] == Waiting
    requires s.times[t.arrival] == now && Debounced(t)
    ensures CoreExcept(s.(pending := s.pending[i := Used(t.relPath, Pending(t, now))]), open - {t.arrival})
  {
    hide Find, At, Keys;
    assert forall l :: 0 <= l < |s.pending| && s.pending[l].Used? ==>
      s.pending[l].key != t.relPath by { KeysAt(s.pending, t.relPath); }
    var slot := Used(t.relPath, Pending(t, now));
    var r := s.(pending := s.pending[i := slot]);
    assert Unique(r.pending) by { WriteIsUpdate(s.pending, i, slot); }
    hide Justified;
    forall l | 0 <= l < |r.pending| && r.pending[l].Used?
      ensures EntryOk(r, l)
    {
      assert l != i ==> r.pending[l] == s.pending[l] && EntryOk(s, l);
    }
    forall k | 0 <= k < |r.pushed|
      ensures PushOk(r, k)
    {
      assert PushOk(s, k);
    }
    forall j | 0 <= j < |r.events|
      ensures EventOk(r, j)
      ensures j !in open - {t.arrival} ==> Justified(r, j)
    {
      assert EventOk(s, j);
      if j !in open - {t.arrival} {
        StoreJustifies(s, i, t, now, j, open);
      }
    }
    forall k | 0 <= k < |s.pushed|
      ensures s.pushed[k].arrival < t.arrival
    {
      assert PushOk(s, k) && s.fates[s.pushed[k].arrival] == Pushed(k);
    }
  }

  lemma StoreJustifies(s: Sched, i: nat, t: SyncTask, now: int, j: nat, open: set<nat>)
    requires CoreExcept(s, open) && i < |s.pending| && s.pending[i].Free? && t.relPath !in Keys(s.pending)
    requires t.arrival == |s.events| - 1 && s.events[t.arrival] == t && s.fates[t.arrival] == Waiting
    requires s.times[t.arrival] == now
    requires j < |s.events| && j !in open - {t.arrival}
    ensures Justified(s.(pending := s.pending[i := Used(t.relPath, Pending(t, now))]), j)
  {
    hide Find, Ordered, PushOk, EntryOk, TableFull;
    assert j !in open ==> Justified(s, j);
    WriteAt(s.pending, i, Used(t.relPath, Pending(t, now)), s.events[j].relPath);
    assert j !in open && s.fates[j].Waiting? ==> s.events[j].relPath in View(s.pending);
  }

  lemma AppendOpens(s: Sched, t: SyncTask, now: int)
    requires CoreExcept(s, {}) && t.arrival == |s.events|
    ensures CoreExcept(Append(s, t, now), {|s.events|})
  {
    hide Find;
    var r := Append(s, t, now);
    forall l | 0 <= l < |r.pending| && r.pending[l].Used?
      ensures EntryOk(r, l)
    {
      assert EntryOk(s, l);
    }
    forall k | 0 <= k < |r.pushed|
      ensures PushOk(r, k)
    {
      assert PushOk(s, k);
    }
    forall j | 0 <= j < |s.events|
      ensures EventOk(r, j) && Justified(r, j)
    {
      assert EventOk(s, j);
      AppendJustifies(s, t, now, j);
    }
  }

  lemma AppendJustifies(s: Sched, t: SyncTask, now: int, j: nat)
    requires CoreExcept(s, {}) && j < |s.events|
    ensures Justified(Append(s, t, now), j)
  {
    hide Find, Ordered, PushOk, EntryOk, TableFull;
    var r := Append(s, t, now);
    assert Justified(s, j);
    if s.fates[j].Dropped? {
      TableWasFull(s.events, s.fates, r.events, r.fates, j, s.fates[j].full, s.fates[j].made);
    }
  }

  lemma RemoveKeeps(s: Sched, key: text)
    requires |s.events| > 0
    requires CoreExcept(s, {|s.events| - 1}) && s.fates[|s.events| - 1] == Waiting
    requires forall i :: 0 <= i < |s.pending| && s.pending[i].Used? ==> s.pending[i].value.task.arrival < |s.events| - 1
    requires Immediate(s.events[|s.events| - 1]) && Withdraws(s.events[|s.events| - 1], key)
    requires LatestUpTo(s, |s.events| - 1)
    ensures var r := Remove(s, key, |s.events| - 1);
      && CoreExcept(r, {|s.events| - 1}) && r.fates[|s.events| - 1] == Waiting
      && (forall i :: 0 <= i < |s.pending| && r.pending[i].Used? ==>
        r.pending[i] == s.pending[i] && r.pending[i].key != key)
  {
    hide Find, Ordered, PushOk;
    var n, i := |s.events| - 1, Find(s.pending, key);
    if i >= 0 {
      assert EntryOk(s, i);
      TakeOut(s, i, Cancelled(n), {n});
      var a := s.pending[i].value.task.arrival;
      var r := Remove(s, key, n);
      assert r == s.(pending := s.pending[i := Free], fates := s.fates[a := Cancelled(n)]);
      assert Justified(r, a);
    }
  }

  // ---- Whole steps -------------------------------------------------------------------------------------

  /** The newest event is open and nothing pending is as new as it. */
  ghost predicate NewestOpen(s: Sched) {
    && |s.events| > 0 && CoreExcept(s, {|s.events| - 1}) && s.fates[|s.events| - 1] == Waiting
    && LatestUpTo(s, |s.events| - 1)
    && (forall i :: 0 <= i < |s.pending| && s.pending[i].Used? ==> s.pending[i].value.task.arrival < |s.events| - 1)
  }

  lemma ReplaceSettles(s: Sched, i: nat, t: SyncTask, now: int)
    requires NewestOpen(s) && t == s.events[|s.events| - 1] && s.times[|s.events| - 1] == now && Debounced(t)
    requires i < |s.pending| && s.pending[i].Used? && s.pending[i].key == t.relPath
    ensures var slot := Used(t.relPath, Pending(t, now));
      var a := s.pending[i].value.task.arrival;
      a < |s.fates| &&
        CoreExcept(s.(pending := s.pending[i := slot], fates := s.fates[a := Superseded(|s.events| - 1)]), {})
  {
    hide Find, PushOk, Ordered;
    var n := |s.events| - 1;
    assert EntryOk(s, i) && EventOk(s, n);
    var a := s.pending[i].value.task.arrival;
    TakeOut(s, i, Superseded(n), {n});
    var mid := s.(pending := s.pending[i := Free], fates := s.fates[a := Superseded(n)]);
    assert Justified(mid, a);
    WriteIsUpdate(s.pending, i, Free);
    assert t.relPath !in View(mid.pending);
    StoreSettles(mid, i, t, now, {n});
    assert mid.pending[i := Used(t.relPath, Pending(t, now))] == s.pending[i := Used(t.relPath, Pending(t, now))];
  }

  lemma UpdateSettles(s: Sched, t: SyncTask, now: int)
    requires NewestOpen(s) && t == s.events[|s.events| - 1] && s.times[|s.events| - 1] == now && Debounced(t)
    ensures CoreExcept(Update(s, t, now), {})
    ensures var r := Update(s, t, now);
      && r.events == s.events && |r.pending| == |s.pending|
      && (forall i :: 0 <= i < |s.pending| && r.pending[i].Used? && r.pending[i].value.task.arrival != t.arrival ==>
            r.pending[i] == s.pending[i] && r.pending[i].key != t.relPath)
  {
    hide Find, FirstFree, EntryOk, PushOk, Justified, Ordered;
    var n := |s.events| - 1;
    assert EventOk(s, n);
    var found := Find(s.pending, t.relPath);
    if found >= 0 {
      ReplaceSettles(s, found, t, now);
    } else if FirstFree(s.pending) >= 0 {
      StoreSettles(s, FirstFree(s.pending), t, now, {n});
    } else {
      DropSettles(s);
    }
  }

  /** Where the newest event finds no slot, all slots hold earlier events. */
  lemma AllSlotsTaken(s: Sched, fates: seq<Fate>)
    requires NewestOpen(s) && FirstFree(s.pending) < 0
    requires |fates| == |s.fates| && forall i :: 0 <= i < |s.fates| - 1 ==> fates[i] == s.fates[i]
    ensures TableFull(s.events, fates, |s.events| - 1, Keys(s.pending), |s.pushed|)
  {
    hide FirstFree, Keys, Find, Justified, PushOk, Ordered;
    FreeIffRoom(s.pending);
    forall q | q in Keys(s.pending)
      ensures exists i: nat ::
        i < |s.events| && s.events[i].relPath == q && InTable(s.events, fates, i, |s.events| - 1, |s.pushed|)
    {
      KeysAt(s.pending, q);
      var l :| 0 <= l < |s.pending| && s.pending[l].Used? && s.pending[l].key == q;
      assert EntryOk(s, l);
      var i := s.pending[l].value.task.arrival;
      assert s.events[i].relPath == q && InTable(s.events, fates, i, |s.events| - 1, |s.pushed|);
    }
  }

  lemma DropSettles(s: Sched)
    requires NewestOpen(s) && Debounced(s.events[|s.events| - 1])
    requires Find(s.pending, s.events[|s.events| - 1].relPath) < 0 && FirstFree(s.pending) < 0
    ensures CoreExcept(s.(fates := s.fates[|s.fates| - 1 := Dropped(Keys(s.pending), |s.pushed|)]), {})
  {
    hide Find, FirstFree, TableFull, Keys;
    var r := s.(fates := s.fates[|s.fates| - 1 := Dropped(Keys(s.pending), |s.pushed|)]);
    forall l | 0 <= l < |r.pending| && r.pending[l].Used?
      ensures EntryOk(r, l)
    {
      assert EntryOk(s, l);
    }
    forall k | 0 <= k < |r.pushed|
      ensures PushOk(r, k)
    {
      assert PushOk(s, k);
    }
    forall j | 0 <= j < |r.events|
      ensures EventOk(r, j) && Justified(r, j)
    {
      assert EventOk(s, j);
      DropJustifies(s, j);
    }
  }

  lemma DropJustifies(s: Sched, j: nat)
    requires NewestOpen(s) && Debounced(s.events[|s.events| - 1]) && j < |s.events|
    requires Find(s.pending, s.events[|s.events| - 1].relPath) < 0 && FirstFree(s.pending) < 0
    ensures Justified(s.(fates := s.fates[|s.fates| - 1 := Dropped(Keys(s.pending), |s.pushed|)]), j)
  {
    hide Find, FirstFree, TableFull, Keys, Ordered, PushOk, EntryOk;
    var fates := s.fates[|s.fates| - 1 := Dropped(Keys(s.pending), |s.pushed|)];
    if j == |s.events| - 1 {
      AllSlotsTaken(s, fates);
      KeysAt(s.pending, s.events[j].relPath);
    } else {
      assert Justified(s, j);
      if s.fates[j].Dropped? {
        TableWasFull(s.events, s.fates, s.events, fates, j, s.fates[j].full, s.fates[j].made);
      }
    }
  }

  lemma ImmediateKeeps(s: Sched, t: SyncTask, now: int)
    requires Inv(s) && t.arrival == |s.events| && Immediate(t)
    ensures CoreExcept(Receive(s, t, now), {})
    ensures var r := Receive(s, t, now);
      && r.events == s.events + [t] && |r.pending| == |s.pending|
      && (forall i :: 0 <= i < |s.pending| && r.pending[i].Used? ==>
        r.pending[i] == s.pending[i] && !Withdraws(t, r.pending[i].key))
  {
    hide Find, PushOk, Justified, Ordered;
    var n, s0 := |s.events|, Append(s, t, now);
    AppendOpens(s, t, now);
    Older(s);
    RemoveKeeps(s0, t.relPath);
    var s1 := Remove(s0, t.relPath, n);
    if t.oldRelPath != [] {
      RemoveKeeps(s1, t.oldRelPath);
    }
    var s2 := if t.oldRelPath != [] then Remove(s1, t.oldRelPath, n) else s1;
    PushSettles(s2, t, {n});
    assert {n} - {n} == {};
  }

  lemma Older(s: Sched)
    requires Inv(s)
    ensures forall i :: 0 <= i < |s.pending| && s.pending[i].Used? ==> s.pending[i].value.task.arrival < |s.events|
    ensures forall k :: 0 <= k < |s.pushed| ==> s.pushed[k].arrival < |s.events|
  {
    forall i | 0 <= i < |s.pending| && s.pending[i].Used?
      ensures s.pending[i].value.task.arrival < |s.events|
    {
      assert EntryOk(s, i);
    }
    forall k | 0 <= k < |s.pushed|
      ensures s.pushed[k].arrival < |s.events|
    {
      assert PushOk(s, k);
    }
  }

  /** An event of another kind is pushed at once; with nothing pending for its path, that keeps the order. */
  lemma OtherKeeps(s: Sched, t: SyncTask, now: int)
    requires Inv(s) && t.arrival == |s.events| && !Known(t) && t.relPath !in Keys(s.pending)
    ensures CoreExcept(Receive(s, t, now), {})
  {
    hide Find, PushOk, Justified, Ordered, EntryOk, Keys;
    AppendOpens(s, t, now);
    Older(s);
    KeysAt(s.pending, t.relPath);
    PushSettles(Append(s, t, now), t, {|s.events|});
    assert {|s.events|} - {|s.events|} == {};
  }

  /**
   * Every event, received at any time, keeps the invariant, unless it is of another kind and its
   * path has something pending.
   */
  lemma ReceiveKeepsInv(s: Sched, t: SyncTask, now: int)
    requires Inv(s) && t.arrival == |s.events| && Tame(s, t)
    ensures Inv(Receive(s, t, now))
  {
    hide Find, PushOk, Justified, Ordered, EntryOk, Keys;
    var r := Receive(s, t, now);
    Older(s);
    if Immediate(t) {
      ImmediateKeeps(s, t, now);
    } else if Debounced(t) {
      AppendOpens(s, t, now);
      UpdateSettles(Append(s, t, now), t, now);
    } else {
      OtherKeeps(s, t, now);
      KeysAt(s.pending, t.relPath);
    }
    forall i, j | 0 <= i < |r.pending| && r.pending[i].Used? && r.pending[i].value.task.arrival < j < |r.events|
      ensures !Concerns(r.events[j], r.pending[i].key)
    {
      assert r.pending[i] == s.pending[i];
      assert j < |s.events| ==> r.events[j] == s.events[j];
    }
  }

  lemma FlushOneKeepsInv(s: Sched, i: nat, w: When)
    requires Inv(s) && i < |s.pending|
    ensures Inv(FlushOne(s, i, w))
  {
    hide Find, PushOk, Justified;
    if s.pending[i].Used? && Due(w, s.pending[i].value) {
      assert EntryOk(s, i);
      var t := s.pending[i].value.task;
      TakeOut(s, i, Waiting, {});
      var mid := s.(pending := s.pending[i := Free]);
      assert s.fates[t.arrival := Waiting] == s.fates;
      forall l | 0 <= l < |mid.pending| && mid.pending[l].Used?
        ensures mid.pending[l].value.task.arrival != t.arrival && mid.pending[l].key != t.relPath
      {
        assert mid.pending[l] == s.pending[l] && EntryOk(s, l);
      }
      PushSettles(mid, t, {t.arrival});
      assert {t.arrival} - {t.arrival} == {};
    }
  }

  lemma {:induction false} FlushKeepsInv(s: Sched, n: nat, w: When)
    requires Inv(s) && n <= |s.pending|
    ensures Inv(FlushUpTo(s, n, w))
  {
    hide Inv;
    if n > 0 {
      FlushKeepsInv(s, n - 1, w);
      FlushOneKeepsInv(FlushUpTo(s, n - 1, w), n - 1, w);
    }
  }

  // ---- Whole runs ----------------------------------------------------------------------------------------

  /** How one wait in select ends, with the clock readings the iteration then takes. */
  datatype Wake =
    | Interrupted
    | PipeBroken
    | Timeout(flushAt: int)
    | Received(task: SyncTask, updateAt: int, flushAt: int)

  /** The main loop of scheduler_thread_main from state `s`. */
  ghost function Run(s: Sched, wakes: seq<Wake>, debounce: int): Sched
    decreases wakes
  {
    if wakes == [] then s
    else
      match wakes[0]
      case Interrupted => Run(s, wakes[1..], debounce)
      case PipeBroken => s
      case Timeout(at) => Run(Flush(s, Stable(at, debounce)), wakes[1..], debounce)
      case Received(t, updateAt, flushAt) =>
        if t.eventType == EVENT_EXIT then s
        else Run(Flush(Receive(s, t, updateAt), Stable(flushAt, debounce)), wakes[1..], debounce)
  }

  /** The events read before EXIT carry their position in the pipe. */
  ghost predicate Numbered(wakes: seq<Wake>, from: nat) {
    wakes != [] ==>
      if wakes[0].Received? && wakes[0].task.eventType != EVENT_EXIT
      then wakes[0].task.arrival == from && Numbered(wakes[1..], from + 1)
      else wakes[0].Interrupted? || wakes[0].Timeout? ==> Numbered(wakes[1..], from)
  }

  /** Each of them, when it is read, is of one of the five kinds or finds nothing pending for its path. */
  ghost predicate AllTame(s: Sched, wakes: seq<Wake>, debounce: int)
    decreases wakes
  {
    wakes != [] ==>
      match wakes[0]
      case Interrupted => AllTame(s, wakes[1..], debounce)
      case PipeBroken => true
      case Timeout(at) => AllTame(Flush(s, Stable(at, debounce)), wakes[1..], debounce)
      case Received(t, updateAt, flushAt) => t.eventType != EVENT_EXIT ==>
        Tame(s, t) && AllTame(Flush(Receive(s, t, updateAt), Stable(flushAt, debounce)), wakes[1..], debounce)
  }

  /** The writers of the pipe send no other kinds, so their runs are tame. */
  lemma {:induction false} KnownKindsAreTame(s: Sched, wakes: seq<Wake>, debounce: int)
    requires forall w :: w in wakes && w.Received? ==> Known(w.task) || w.task.eventType == EVENT_EXIT
    ensures AllTame(s, wakes, debounce)
    decreases wakes
  {
    hide Receive, Flush;
    if wakes != [] {
      assert wakes[0] in wakes && forall w :: w in wakes[1..] ==> w in wakes;
      match wakes[0] {
        case Interrupted => KnownKindsAreTame(s, wakes[1..], debounce);
        case PipeBroken =>
        case Timeout(at) => KnownKindsAreTame(Flush(s, Stable(at, debounce)), wakes[1..], debounce);
        case Received(t, updateAt, flushAt) =>
          KnownKindsAreTame(Flush(Receive(s, t, updateAt), Stable(flushAt, debounce)), wakes[1..], debounce);
      }
    }
  }

  lemma {:induction false} FlushKeepsEvents(s: Sched, n: nat, w: When)
    requires n <= |s.pending|
    ensures FlushUpTo(s, n, w).events == s.events && FlushUpTo(s, n, w).times == s.times
  {
    if n > 0 {
      FlushKeepsEvents(s, n - 1, w);
    }
  }

  /** The invariant holds at every moment of every run, with any clock readings. */
  lemma {:induction false} RunKeepsInv(s: Sched, wakes: seq<Wake>, debounce: int)
    requires Inv(s) && Numbered(wakes, |s.events|) && AllTame(s, wakes, debounce)
    ensures Inv(Run(s, wakes, debounce))
    decreases wakes
  {
    hide Inv, Receive, Tame;
    if wakes != [] {
      match wakes[0] {
        case Interrupted => RunKeepsInv(s, wakes[1..], debounce);
        case PipeBroken =>
        case Timeout(at) =>
          FlushKeepsInv(s, |s.pending|, Stable(at, debounce));
          FlushKeepsEvents(s, |s.pending|, Stable(at, debounce));
          RunKeepsInv(Flush(s, Stable(at, debounce)), wakes[1..], debounce);
        case Received(t, updateAt, flushAt) =>
          if t.eventType != EVENT_EXIT {
            var r := Receive(s, t, updateAt);
            ReceiveKeepsInv(s, t, updateAt);
            ReceiveAppends(s, t, updateAt);
            FlushKeepsInv(r, |r.pending|, Stable(flushAt, debounce));
            FlushKeepsEvents(r, |r.pending|, Stable(flushAt, debounce));
            RunKeepsInv(Flush(r, Stable(flushAt, debounce)), wakes[1..], debounce);
          }
      }
    }
  }

  lemma ReceiveAppends(s: Sched, t: SyncTask, now: int)
    ensures Receive(s, t, now).events == s.events + [t] && s.pushed <= Receive(s, t, now).pushed
  {
  }

  ghost function AfterFlush(slot: Slot<Pending>, visited: bool, w: When): Slot<Pending> {
    if visited && slot.Used? && Due(w, slot.value) then Free else slot
  }

  ghost predicate FlushedFrom(s: Sched, w: When, t: SyncTask) {
    t.arrival < |s.events| == |s.times| == |s.fates| && s.fates[t.arrival] == Waiting &&
      Due(w, Pending(t, s.times[t.arrival]))
  }

  /** What one flush does to every slot and to every event's fate. */
  lemma {:induction false} FlushIsExact(s: Sched, n: nat, w: When)
    requires Inv(s) && n <= |s.pending|
    ensures var r := FlushUpTo(s, n, w);
      && (forall i :: 0 <= i < |s.pending| ==> r.pending[i] == AfterFlush(s.pending[i], i < n, w))
      && s.pushed <= r.pushed && r.events == s.events && r.times == s.times && |r.fates| == |s.fates|
      && (forall k :: |s.pushed| <= k < |r.pushed| ==> FlushedFrom(s, w, r.pushed[k]))
  {
    hide Find, Justified, PushOk, Ordered, Latest, FlushOne, FlushedFrom;
    if n > 0 {
      FlushIsExact(s, n - 1, w);
      assert s.pending[n - 1].Used? ==> EntryOk(s, n - 1);
      hide Inv, FlushUpTo, EntryOk, AfterFlush;
      FlushOneIsExact(s, FlushUpTo(s, n - 1, w), n - 1, w);
    }
  }

  lemma FlushOneIsExact(s: Sched, r: Sched, i: nat, w: When)
    requires i < |s.pending| == |r.pending| && (s.pending[i].Used? ==> EntryOk(s, i))
    requires forall l :: 0 <= l < |s.pending| ==> r.pending[l] == AfterFlush(s.pending[l], l < i, w)
    requires s.pushed <= r.pushed && r.events == s.events && r.times == s.times && |r.fates| == |s.fates|
    requires forall k :: |s.pushed| <= k < |r.pushed| ==> FlushedFrom(s, w, r.pushed[k])
    ensures var q := FlushOne(r, i, w);
      && (forall l :: 0 <= l < |s.pending| ==> q.pending[l] == AfterFlush(s.pending[l], l < i + 1, w))
      && s.pushed <= q.pushed && q.events == s.events && q.times == s.times && |q.fates| == |s.fates|
      && (forall k :: |s.pushed| <= k < |q.pushed| ==> FlushedFrom(s, w, q.pushed[k]))
  {
    var q := FlushOne(r, i, w);
    forall k | |s.pushed| <= k < |q.pushed|
      ensures FlushedFrom(s, w, q.pushed[k])
    {
      assert k < |r.pushed| ==> q.pushed[k] == r.pushed[k];
    }
  }

  /**
   * A stable flush pushes exactly the waiting events whose path has been quiet for the debounce
   * time, each of which is the latest event of its path, and leaves only younger entries.
   */
  lemma StableFlushIsExact(s: Sched, now: int, debounce: int, j: nat)
    requires Inv(s) && j < |s.events|
    ensures var r := Flush(s, Stable(now, debounce));
      && Inv(r) && |r.fates| == |s.fates|
      && (r.fates[j].Pushed? <==> s.fates[j].Pushed? || (s.fates[j] == Waiting && now - s.times[j] >= debounce))
      && (!r.fates[j].Pushed? ==> r.fates[j] == s.fates[j])
      && (forall i :: 0 <= i < |r.pending| && r.pending[i].Used? ==> now - r.pending[i].value.lastUpdate < debounce)
    ensures s.fates[j] == Waiting ==> forall l :: j < l < |s.events| ==> s.events[l].relPath != s.events[j].relPath
  {
    hide Find, Ordered;
    var w := Stable(now, debounce);
    var r := Flush(s, w);
    FlushKeepsInv(s, |s.pending|, w);
    FlushIsExact(s, |s.pending|, w);
    FlushKeepsFates(s, |s.pending|, w, j);
    assert Justified(s, j) && Justified(r, j) && EventOk(s, j);
    if s.fates[j] == Waiting {
      var i := Find(s.pending, s.events[j].relPath);
      assert s.pending[i].value == Pending(s.events[j], s.times[j]);
      if r.fates[j] == Waiting {
        var l := Find(r.pending, s.events[j].relPath);
        assert r.pending[l] == s.pending[l];
      }
    }
  }

  lemma {:induction false} FlushKeepsFates(s: Sched, n: nat, w: When, j: nat)
    requires Inv(s) && n <= |s.pending| && j < |s.fates|
    ensures |FlushUpTo(s, n, w).fates| == |s.fates|
    ensures FlushUpTo(s, n, w).fates[j] == s.fates[j] || (s.fates[j] == Waiting && FlushUpTo(s, n, w).fates[j].Pushed?)
  {
    hide Find, Justified, PushOk, Ordered, Latest;
    if n > 0 {
      FlushKeepsFates(s, n - 1, w, j);
      var r := FlushUpTo(s, n - 1, w);
      FlushKeepsInv(s, n - 1, w);
      assert r.pending[n - 1].Used? ==> EntryOk(r, n - 1);
    }
  }

  /**
   * Conservation: of being pushed and being pending, each exactly once, and having given way to a
   * later event or to a full table, exactly one is true of each event received.
   */
  lemma EachEventOnce(s: Sched, j: nat)
    requires Inv(s) && j < |s.events|
    ensures s.fates[j].Pushed? <==> exists k :: 0 <= k < |s.pushed| && s.pushed[k].arrival == j
    ensures forall k, l :: 0 <= k < l < |s.pushed| ==> s.pushed[k].arrival != s.pushed[l].arrival
    ensures s.fates[j].Waiting? <==>
      exists i :: 0 <= i < |s.pending| && s.pending[i].Used? && s.pending[i].value.task.arrival == j
    ensures Justified(s, j)
  {
    hide Find;
    assert Justified(s, j) && EventOk(s, j);
    forall k | 0 <= k < |s.pushed|
      ensures s.pushed[k].arrival < |s.fates| && s.fates[s.pushed[k].arrival] == Pushed(k)
    {
      assert PushOk(s, k);
    }
    forall i | 0 <= i < |s.pending| && s.pending[i].Used?
      ensures s.pending[i].value.task.arrival < |s.fates| && s.fates[s.pending[i].value.task.arrival] == Waiting
    {
      assert EntryOk(s, i);
    }
    if s.fates[j].Waiting? {
      var i := Find(s.pending, s.events[j].relPath);
      assert s.pending[i].value.task.arrival == j;
    }
  }

  /**
   * What may keep an event from being pushed, by the kinds of events: one of kind 1, 2 or 5 is
   * superseded by the next event for its path, of kind 1, 2 or 5; it is cancelled by one of kind 3
   * or 4 for its path, or with it as the old path, if none came in between; or it is dropped while
   * 4096 other paths have entries. The others are always pushed.
   */
  lemma GaveWay(s: Sched, j: nat)
    requires Inv(s) && j < |s.events|
    ensures |s.fates| == |s.events| && (!s.fates[j].Pushed? ==> s.events[j].eventType in {1, 2, 5})
    ensures var p := s.events[j].relPath;
      match s.fates[j]
      case Superseded(b) => j < b < |s.events| && s.events[b].eventType in {1, 2, 5} && s.events[b].relPath == p
      case Cancelled(b) =>
        && j < b < |s.events| && s.events[b].eventType in {3, 4}
        && (s.events[b].relPath == p || (s.events[b].oldRelPath == p && p != []))
      case Dropped(full, _) => |full| == 4096 && p !in full
      case _ => true
    ensures s.fates[j].Superseded? || s.fates[j].Cancelled? ==>
      forall l :: j < l < s.fates[j].later && l < |s.events| ==>
        s.events[l].relPath != s.events[j].relPath &&
        (s.events[l].eventType in {3, 4} && s.events[l].oldRelPath == s.events[j].relPath ==> s.events[j].relPath == [])
  {
    hide Find, Ordered, Latest, EntryOk, PushOk;
    assert Justified(s, j);
    var p := s.events[j].relPath;
    if s.fates[j].Waiting? {
      var i := Find(s.pending, p);
      WaitsDebounced(s, i);
    } else if s.fates[j].Superseded? || s.fates[j].Cancelled? {
      forall l | j < l < s.fates[j].later && l < |s.events|
        ensures !Concerns(s.events[l], p)
      {
      }
    }
  }

  lemma WaitsDebounced(s: Sched, i: nat)
    requires Inv(s) && i < |s.pending| && s.pending[i].Used?
    ensures s.pending[i].value.task.eventType in {1, 2, 5}
  {
    assert EntryOk(s, i);
  }

  /** Pushes for one path are in arrival order. */
  ghost predicate InOrder(pushed: seq<SyncTask>) {
    forall k, l :: 0 <= k < l < |pushed| && pushed[k].relPath == pushed[l].relPath ==>
      pushed[k].arrival < pushed[l].arrival
  }

  lemma InvInOrder(s: Sched)
    requires Inv(s)
    ensures InOrder(s.pushed)
  {
  }

  /**
   * When the scheduler exits, nothing is pending: every event of the run was pushed, gave way to a
   * later event or met a full table, and the pushes of each path are in arrival order.
   */
  lemma SchedulerRun(wakes: seq<Wake>, debounce: int)
    requires Numbered(wakes, 0) && AllTame(Initial(), wakes, debounce)
    ensures var r := Flush(Run(Initial(), wakes, debounce), Always);
      && Inv(r)
      && (forall i :: 0 <= i < |r.pending| ==> r.pending[i].Free?)
      && (forall j :: 0 <= j < |r.events| ==> !r.fates[j].Waiting?)
      && InOrder(r.pushed)
  {
    hide Run, Numbered, AllTame;
    InitialInv();
    RunKeepsInv(Initial(), wakes, debounce);
    var s := Run(Initial(), wakes, debounce);
    FlushIsExact(s, |s.pending|, Always);
    FlushKeepsInv(s, |s.pending|, Always);
    var r := Flush(s, Always);
    forall j | 0 <= j < |r.events|
      ensures !r.fates[j].Waiting?
    {
      EachEventOnce(r, j);
    }
  }

  /**
   * When the order is kept: after the next event and the flush at exit, the pushes of each path are
   * in arrival order if and only if the event is of one of the five kinds or nothing was pending
   * for its path. Otherwise it overtakes what was pending.
   */
  lemma OrderKeptIff(s: Sched, t: SyncTask, now: int)
    requires Inv(s) && t.arrival == |s.events|
    ensures InOrder(Flush(Receive(s, t, now), Always).pushed) <==> Tame(s, t)
  {
    hide Find, PushOk, Justified, Keys, InOrder;
    var r := Receive(s, t, now);
    if Tame(s, t) {
      ReceiveKeepsInv(s, t, now);
      FlushKeepsInv(r, |r.pending|, Always);
      InvInOrder(Flush(r, Always));
    } else {
      KeysAt(s.pending, t.relPath);
      var i :| 0 <= i < |s.pending| && s.pending[i].Used? && s.pending[i].key == t.relPath;
      assert EntryOk(s, i) && r.pending == s.pending && r.pushed == s.pushed + [t];
      var k := FlushPushes(r, i, |r.pending|);
      Overtaken(Flush(r, Always).pushed, |s.pushed|, k);
    }
  }

  lemma Overtaken(pushed: seq<SyncTask>, k: nat, l: nat)
    requires k < l < |pushed| && pushed[k].relPath == pushed[l].relPath && pushed[l].arrival <= pushed[k].arrival
    ensures !InOrder(pushed)
  {
  }

  /** A flush of everything pushes what is pending behind what has been pushed already. */
  lemma {:induction false} FlushPushes(s: Sched, i: nat, n: nat) returns (k: nat)
    requires i < |s.pending| && n <= |s.pending| && s.pending[i].Used?
    ensures var r := FlushUpTo(s, n, Always);
      && s.pushed <= r.pushed
      && if n <= i then r.pending[i] == s.pending[i]
        else |s.pushed| <= k < |r.pushed| && r.pushed[k] == s.pending[i].value.task
  {
    k := 0;
    if n > 0 {
      k := FlushPushes(s, i, n - 1);
      if n - 1 == i {
        k := |FlushUpTo(s, n - 1, Always).pushed|;
      }
    }
  }

  lemma FlushIsFold(s: Sched, w: When)
    ensures Flush(s, w) == FlushUpTo(s, |s.pending|, w)
  {
  }

  // ---- When the table overflows ---------------------------------------------------------------------------

  ghost function Paths(events: seq<SyncTask>): set<text> { set t | t in events :: t.relPath }

  /** An event is dropped exactly if it wants a slot of its own and every slot belongs to another path. */
  lemma DroppedIff(s: Sched, t: SyncTask, now: int)
    requires Inv(s) && t.arrival == |s.events|
    ensures var r := Receive(s, t, now);
      |r.fates| == |s.fates| + 1 &&
      (r.fates[|s.fates|].Dropped? <==>
        Debounced(t) && t.relPath !in Keys(s.pending) && |Keys(s.pending)| == MAX_PENDING_TASKS)
  {
    hide Find, FirstFree, Keys, Justified, PushOk, Ordered, Latest;
    FreeIffRoom(s.pending);
    KeysAt(s.pending, t.relPath);
    Older(s);
  }

  /** As long as there are no more paths than slots, nothing is dropped. */
  lemma FewPathsDropNothing(s: Sched)
    requires Inv(s) && |Paths(s.events)| <= MAX_PENDING_TASKS
    ensures forall j :: 0 <= j < |s.events| ==> !s.fates[j].Dropped?
  {
    forall j | 0 <= j < |s.events|
      ensures !s.fates[j].Dropped?
    {
      assert Justified(s, j);
      if s.fates[j].Dropped? {
        FullNeedsPaths(s.events, s.fates, j, s.fates[j].full, s.fates[j].made);
      }
    }
  }

  lemma FullNeedsPaths(events: seq<SyncTask>, fates: seq<Fate>, j: nat, full: set<text>, made: nat)
    requires j < |events| == |fates| && events[j].relPath !in full && TableFull(events, fates, j, full, made)
    ensures |Paths(events)| > MAX_PENDING_TASKS
  {
    var all := full + {events[j].relPath};
    forall q | q in all
      ensures q in Paths(events)
    {
      if q in full {
        var i: nat :| i < |events| && events[i].relPath == q && InTable(events, fates, i, j, made);
        assert events[i] in events;
      } else {
        assert events[j] in events;
      }
    }
    SizeOfSubset(all, Paths(events));
  }

  /** The paths the events of a run name. */
  ghost function Named(wakes: seq<Wake>): set<text> { set w | w in wakes && w.Received? :: w.task.relPath }

  lemma {:induction false} RunNames(s: Sched, wakes: seq<Wake>, debounce: int)
    ensures Paths(Run(s, wakes, debounce).events) <= Paths(s.events) + Named(wakes)
    decreases wakes
  {
    hide Receive, FlushUpTo;
    if wakes != [] {
      var rest := wakes[1..];
      assert wakes[0] in wakes && forall w :: w in rest ==> w in wakes;
      assert Named(rest) <= Named(wakes);
      match wakes[0] {
        case Interrupted => RunNames(s, rest, debounce);
        case PipeBroken =>
        case Timeout(at) =>
          FlushKeepsEvents(s, |s.pending|, Stable(at, debounce));
          RunNames(Flush(s, Stable(at, debounce)), rest, debounce);
        case Received(t, updateAt, flushAt) =>
          var r := Receive(s, t, updateAt);
          ReceiveAppends(s, t, updateAt);
          FlushKeepsEvents(r, |r.pending|, Stable(flushAt, debounce));
          assert Paths(s.events + [t]) == Paths(s.events) + {t.relPath};
          RunNames(Flush(r, Stable(flushAt, debounce)), rest, debounce);
      }
    }
  }

  /**
   * In a run whose events name no more paths than there are slots, every event is pushed or gives
   * way to the next one that concerns its path.
   */
  lemma NothingDropped(wakes: seq<Wake>, debounce: int, j: nat)
    requires Numbered(wakes, 0) && AllTame(Initial(), wakes, debounce) && |Named(wakes)| <= MAX_PENDING_TASKS
    requires j < |Flush(Run(Initial(), wakes, debounce), Always).events|
    ensures var r := Flush(Run(Initial(), wakes, debounce), Always);
      && |r.fates| == |r.events|
      && match r.fates[j]
         case Pushed(k) => k < |r.pushed| && r.pushed[k] == r.events[j]
         case Superseded(b) => NextOn(r.events, j, b) && Debounced(r.events[b])
         case Cancelled(b) => NextOn(r.events, j, b) && Immediate(r.events[b])
         case _ => false
  {
    hide Run, Numbered, AllTame, NextOn;
    SchedulerRun(wakes, debounce);
    var s := Run(Initial(), wakes, debounce);
    var r := Flush(s, Always);
    RunNames(Initial(), wakes, debounce);
    FlushKeepsEvents(s, |s.pending|, Always);
    assert Paths(Initial().events) == {};
    SizeOfSubset(Paths(r.events), Named(wakes));
    FewPathsDropNothing(r);
    assert Justified(r, j);
  }

  // ---- When things happen ---------------------------------------------------------------------------------

  /** The wake-up ends the loop: the pipe broke, or EXIT was read. */
  ghost predicate Ends(w: Wake) { w.PipeBroken? || (w.Received? && w.task.eventType == 99) }

  /** The loop is still running when wake-up `m` comes. */
  ghost predicate Going(wakes: seq<Wake>, m: nat) { m <= |wakes| && forall i :: 0 <= i < m ==> !Ends(wakes[i]) }

  /** The scheduler's state when the first `m` wake-ups have been dealt with. */
  ghost function StateAt(wakes: seq<Wake>, debounce: int, m: nat): Sched
    requires m <= |wakes|
  {
    Run(Initial(), wakes[..m], debounce)
  }

  /** One iteration that does not end the loop. */
  ghost function Iterate(s: Sched, w: Wake, debounce: int): Sched {
    match w
    case Interrupted => s
    case PipeBroken => s
    case Timeout(at) => Flush(s, Stable(at, debounce))
    case Received(t, updateAt, flushAt) => Flush(Receive(s, t, updateAt), Stable(flushAt, debounce))
  }

  lemma {:induction false} RunNext(s: Sched, wakes: seq<Wake>, m: nat, debounce: int)
    requires m < |wakes| && Going(wakes, m + 1)
    ensures Run(s, wakes[..m + 1], debounce) == Iterate(Run(s, wakes[..m], debounce), wakes[m], debounce)
    decreases m
  {
    hide Receive, Flush;
    assert !Ends(wakes[0]);
    var rest := wakes[1..];
    if m == 0 {
      assert wakes[..1][1..] == [];
    } else {
      assert forall i :: 0 <= i < m ==> rest[i] == wakes[i + 1];
      assert wakes[..m + 1][1..] == rest[..m] && wakes[..m][1..] == rest[..m - 1];
      RunNext(Iterate(s, wakes[0], debounce), rest, m - 1, debounce);
    }
  }

  /** A whole run is that up to the wake-up that ends the loop. */
  lemma {:induction false} RunStops(s: Sched, wakes: seq<Wake>, debounce: int) returns (m: nat)
    ensures Going(wakes, m) && (m == |wakes| || Ends(wakes[m]))
    ensures Run(s, wakes, debounce) == Run(s, wakes[..m], debounce)
    decreases wakes
  {
    hide Receive, Flush;
    if wakes == [] || Ends(wakes[0]) {
      m := 0;
    } else {
      m := RunStops(Iterate(s, wakes[0], debounce), wakes[1..], debounce);
      m := m + 1;
      assert wakes[..m][1..] == wakes[1..][..m - 1];
    }
  }

  lemma {:induction false} FrontIsFine(s: Sched, wakes: seq<Wake>, debounce: int, from: nat, m: nat)
    requires Numbered(wakes, from) && AllTame(s, wakes, debounce) && m <= |wakes|
    ensures Numbered(wakes[..m], from) && AllTame(s, wakes[..m], debounce)
    decreases m
  {
    hide Receive, Flush, Tame;
    if m > 0 {
      assert wakes[..m][1..] == wakes[1..][..m - 1];
      if wakes[0].Interrupted? {
        FrontIsFine(s, wakes[1..], debounce, from, m - 1);
      } else if wakes[0].Timeout? {
        FrontIsFine(Flush(s, Stable(wakes[0].flushAt, debounce)), wakes[1..], debounce, from, m - 1);
      } else if wakes[0].Received? && wakes[0].task.eventType != EVENT_EXIT {
        var r := Receive(s, wakes[0].task, wakes[0].updateAt);
        FrontIsFine(Flush(r, Stable(wakes[0].flushAt, debounce)), wakes[1..], debounce, from + 1, m - 1);
      }
    }
  }

  lemma StateIsFine(wakes: seq<Wake>, debounce: int, m: nat)
    requires Numbered(wakes, 0) && AllTame(Initial(), wakes, debounce) && m <= |wakes|
    ensures Inv(StateAt(wakes, debounce, m))
  {
    hide Numbered, AllTame, Inv;
    InitialInv();
    FrontIsFine(Initial(), wakes, debounce, 0, m);
    assert Initial().events == [];
    RunKeepsInv(Initial(), wakes[..m], debounce);
  }

  /** Event `j` was read in wake-up `i`. */
  ghost predicate ReadIn(s: Sched, wakes: seq<Wake>, j: nat, i: nat) {
    j < |s.events| == |s.times| && i < |wakes| && wakes[i].Received? &&
    s.events[j] == wakes[i].task && s.times[j] == wakes[i].updateAt
  }

  /** Every event was read in some wake-up, and is stamped with the time read there. */
  lemma {:induction false} StampedWhenRead(wakes: seq<Wake>, debounce: int, m: nat, j: nat) returns (i: nat)
    requires Going(wakes, m) && j < |StateAt(wakes, debounce, m).events|
    ensures i < m && ReadIn(StateAt(wakes, debounce, m), wakes, j, i)
    decreases m
  {
    hide Receive, FlushUpTo;
    assert m > 0 by { assert wakes[..0] == []; }
    var s, w := StateAt(wakes, debounce, m - 1), wakes[m - 1];
    RunNext(Initial(), wakes, m - 1, debounce);
    TimesKept(wakes, debounce, m - 1);
    IterateAppends(s, w, debounce);
    if j < |s.events| {
      i := StampedWhenRead(wakes, debounce, m - 1, j);
    } else {
      i := m - 1;
    }
  }

  lemma IterateAppends(s: Sched, w: Wake, debounce: int)
    requires !Ends(w) && |s.events| == |s.times|
    ensures var r := Iterate(s, w, debounce);
      if w.Received? then r.events == s.events + [w.task] && r.times == s.times + [w.updateAt]
      else r.events == s.events && r.times == s.times
  {
    hide FlushUpTo;
    match w
    case Timeout(at) => FlushKeepsEvents(s, |s.pending|, Stable(at, debounce));
    case Received(t, updateAt, flushAt) =>
      var r := Receive(s, t, updateAt);
      FlushKeepsEvents(r, |r.pending|, Stable(flushAt, debounce));
    case _ =>
  }

  lemma {:induction false} TimesKept(wakes: seq<Wake>, debounce: int, m: nat)
    requires Going(wakes, m)
    ensures |StateAt(wakes, debounce, m).events| == |StateAt(wakes, debounce, m).times|
    decreases m
  {
    if m == 0 {
      assert wakes[..0] == [];
    } else {
      RunNext(Initial(), wakes, m - 1, debounce);
      TimesKept(wakes, debounce, m - 1);
      IterateAppends(StateAt(wakes, debounce, m - 1), wakes[m - 1], debounce);
    }
  }

  /** What an iteration pushes: the event it read, if that is not to be debounced, then what is due. */
  lemma IteratePushes(s: Sched, w: Wake, debounce: int, k: nat)
    requires Inv(s) && !Ends(w) && (w.Received? ==> w.task.arrival == |s.events| && Tame(s, w.task))
    requires k < |Iterate(s, w, debounce).pushed|
    ensures var r := Iterate(s, w, debounce); var t := r.pushed[k];
      && s.pushed <= r.pushed
      && (k >= |s.pushed| ==>
        || (w.Received? && t == w.task && t.eventType !in {1, 2, 5} && k == |s.pushed|)
        || (t.eventType in {1, 2, 5} && !w.Interrupted? && t.arrival < |r.events| == |r.times| &&
            r.events[t.arrival] == t && w.flushAt - r.times[t.arrival] >= debounce))
  {
    hide Inv, Tame, FlushUpTo, Justified, Latest, Ordered;
    match w
    case Timeout(at) =>
      FlushPushesDue(s, Stable(at, debounce), k);
    case Received(t, updateAt, flushAt) =>
      var q := Receive(s, t, updateAt);
      ReceiveKeepsInv(s, t, updateAt);
      ReceivePushes(s, t, updateAt);
      FlushPushesDue(q, Stable(flushAt, debounce), k);
    case _ =>
  }

  lemma ReceivePushes(s: Sched, t: SyncTask, now: int)
    ensures Receive(s, t, now).pushed == if t.eventType in {1, 2, 5} then s.pushed else s.pushed + [t]
  {
  }

  /** Everything a flush pushes is to be debounced, and has waited long enough unless the loop is over. */
  lemma FlushPushesDue(s: Sched, w: When, k: nat)
    requires Inv(s) && k < |Flush(s, w).pushed|
    ensures var r := Flush(s, w);
      && s.pushed <= r.pushed && r.events == s.events && r.times == s.times && |r.events| == |r.times|
      && (k >= |s.pushed| ==>
        var t := r.pushed[k];
        && t.eventType in {1, 2, 5} && t.arrival < |r.events|
        && r.events[t.arrival] == t && (w.Stable? ==> w.now - r.times[t.arrival] >= w.debounce))
  {
    hide Find, Ordered, Latest, TableFull, NextOn;
    FlushIsExact(s, |s.pending|, w);
    FlushKeepsInv(s, |s.pending|, w);
    var r := Flush(s, w);
    if k >= |s.pushed| {
      var j := r.pushed[k].arrival;
      assert FlushedFrom(s, w, r.pushed[k]) && PushOk(r, k);
      assert Justified(s, j);
      var i := Find(s.pending, s.events[j].relPath);
      assert EntryOk(s, i);
    }
  }

  lemma {:induction false} NextIsFine(s: Sched, wakes: seq<Wake>, debounce: int, from: nat, m: nat)
    requires Numbered(wakes, from) && AllTame(s, wakes, debounce) && m < |wakes| && Going(wakes, m + 1)
    requires |s.events| == from
    ensures wakes[m].Received? ==>
      var q := Run(s, wakes[..m], debounce); wakes[m].task.arrival == |q.events| && Tame(q, wakes[m].task)
    decreases m
  {
    hide Receive, FlushUpTo, Tame;
    assert !Ends(wakes[0]);
    if m > 0 {
      var rest, w := wakes[1..], wakes[0];
      assert forall i :: 0 <= i < m ==> rest[i] == wakes[i + 1];
      assert wakes[..m][1..] == rest[..m - 1];
      var r := Iterate(s, w, debounce);
      IterateCounts(s, w, debounce);
      NextIsFine(r, rest, debounce, |r.events|, m - 1);
    }
  }

  lemma IterateCounts(s: Sched, w: Wake, debounce: int)
    requires !Ends(w)
    ensures |Iterate(s, w, debounce).events| == |s.events| + if w.Received? then 1 else 0
  {
    hide FlushUpTo;
    match w
    case Timeout(at) => FlushKeepsEvents(s, |s.pending|, Stable(at, debounce));
    case Received(t, updateAt, flushAt) =>
      var r := Receive(s, t, updateAt);
      FlushKeepsEvents(r, |r.pending|, Stable(flushAt, debounce));
    case _ =>
  }

  /**
   * When a task is accepted: push `k` happened in wake-up `m`, for an event read in wake-up `i`. An
   * event of kind 1, 2 or 5 had then waited for the debounce time at least; any other was accepted
   * at once.
   */
  lemma {:induction false} AcceptedWhen(wakes: seq<Wake>, debounce: int, n: nat, k: nat) returns (i: nat, m: nat)
    requires Numbered(wakes, 0) && AllTame(Initial(), wakes, debounce) && Going(wakes, n)
    requires k < |StateAt(wakes, debounce, n).pushed|
    ensures i <= m < n && |StateAt(wakes, debounce, m).pushed| <= k < |StateAt(wakes, debounce, m + 1).pushed|
    ensures wakes[i].Received? && wakes[i].task == StateAt(wakes, debounce, n).pushed[k]
    ensures StateAt(wakes, debounce, m + 1).pushed[k] == StateAt(wakes, debounce, n).pushed[k]
    ensures if wakes[i].task.eventType in {1, 2, 5}
      then !wakes[m].Interrupted? && wakes[m].flushAt - wakes[i].updateAt >= debounce
      else i == m && k == |StateAt(wakes, debounce, m).pushed|
    decreases n
  {
    hide Inv, Tame, Iterate, Numbered, AllTame;
    assert n > 0 by { assert wakes[..0] == []; }
    var s, r, w := StateAt(wakes, debounce, n - 1), StateAt(wakes, debounce, n), wakes[n - 1];
    RunNext(Initial(), wakes, n - 1, debounce);
    StateIsFine(wakes, debounce, n - 1);
    assert Initial().events == [];
    NextIsFine(Initial(), wakes, debounce, 0, n - 1);
    IteratePushes(s, w, debounce, k);
    if k < |s.pushed| {
      i, m := AcceptedWhen(wakes, debounce, n - 1, k);
    } else {
      m := n - 1;
      if r.pushed[k].eventType in {1, 2, 5} {
        i := StampedWhenRead(wakes, debounce, n, r.pushed[k].arrival);
      } else {
        i := m;
      }
    }
  }

  /**
   * The queue of scheduler_thread_main: task `k` was accepted in wake-up `m` before the loop ended,
   * after waiting as AcceptedWhen says, or `m` is the wake-up that ended the loop and it is one that
   * was still waiting then.
   */
  lemma QueueTiming(wakes: seq<Wake>, debounce: int, k: nat) returns (i: nat, m: nat)
    requires Numbered(wakes, 0) && AllTame(Initial(), wakes, debounce)
    requires k < |Flush(Run(Initial(), wakes, debounce), Always).pushed|
    ensures var t := Flush(Run(Initial(), wakes, debounce), Always).pushed[k];
      && i <= m <= |wakes| && i < |wakes| && wakes[i].Received? && wakes[i].task == t
      && Going(wakes, m)
      && if m < |wakes| && Going(wakes, m + 1) then
          && |StateAt(wakes, debounce, m).pushed| <= k < |StateAt(wakes, debounce, m + 1).pushed|
          && StateAt(wakes, debounce, m + 1).pushed[k] == t
          && if t.eventType in {1, 2, 5}
            then !wakes[m].Interrupted? && wakes[m].flushAt - wakes[i].updateAt >= debounce
            else i == m && k == |StateAt(wakes, debounce, m).pushed|
        else t.eventType in {1, 2, 5} && k >= |StateAt(wakes, debounce, m).pushed|
  {
    hide Inv, Tame, Iterate, Numbered, AllTame, Run;
    var n := RunStops(Initial(), wakes, debounce);
    var s := StateAt(wakes, debounce, n);
    StateIsFine(wakes, debounce, n);
    FlushPushesDue(s, Always, k);
    if k < |s.pushed| {
      i, m := AcceptedWhen(wakes, debounce, n, k);
    } else {
      m := n;
      i := StampedWhenRead(wakes, debounce, n, Flush(s, Always).pushed[k].arrival);
    }
  }

  /**
   * What is still pending after a wake-up that flushes is of kind 1, 2 or 5 and was read less than
   * the debounce time before; what a wake-up reads of another kind is accepted in it, and a deleted,
   * renamed or old path has nothing pending any more.
   */
  lemma PendingIsYoung(wakes: seq<Wake>, debounce: int, m: nat, p: nat) returns (i: nat)
    requires Numbered(wakes, 0) && AllTame(Initial(), wakes, debounce)
    requires m < |wakes| && Going(wakes, m + 1) && !wakes[m].Interrupted?
    ensures var s, r := StateAt(wakes, debounce, m), StateAt(wakes, debounce, m + 1);
      && (p < |r.pending| && r.pending[p].Used? ==>
        && i <= m && wakes[i].Received? && wakes[i].task == r.pending[p].value.task
        && r.pending[p].key == wakes[i].task.relPath && wakes[i].task.eventType in {1, 2, 5}
        && wakes[m].flushAt - wakes[i].updateAt < debounce)
      && (wakes[m].Received? && wakes[m].task.eventType !in {1, 2, 5} ==>
        |s.pushed| < |r.pushed| && r.pushed[|s.pushed|] == wakes[m].task)
      && (wakes[m].Received? && wakes[m].task.eventType in {3, 4} ==>
        forall q :: q in Keys(r.pending) ==>
          q != wakes[m].task.relPath && (q == wakes[m].task.oldRelPath ==> q == []))
  {
    hide Inv, Tame, Numbered, AllTame, Run, FlushUpTo, Receive, EntryOk, Keys;
    var s, w := StateAt(wakes, debounce, m), wakes[m];
    RunNext(Initial(), wakes, m, debounce);
    StateIsFine(wakes, debounce, m);
    assert Initial().events == [];
    NextIsFine(Initial(), wakes, debounce, 0, m);
    var q := if w.Received? then Receive(s, w.task, w.updateAt) else s;
    if w.Received? {
      ReceiveKeepsInv(s, w.task, w.updateAt);
      IteratePushesRead(s, w, debounce);
      if w.task.eventType in {3, 4} {
        ReceiveWithdraws(s, w.task, w.updateAt);
      }
    }
    var r := Flush(q, Stable(w.flushAt, debounce));
    FlushLeavesYoung(q, w.flushAt, debounce);
    i := 0;
    if p < |r.pending| && r.pending[p].Used? {
      i := StampedWhenRead(wakes, debounce, m + 1, r.pending[p].value.task.arrival);
    }
  }

  lemma IteratePushesRead(s: Sched, w: Wake, debounce: int)
    requires Inv(s) && !Ends(w) && w.Received? && w.task.arrival == |s.events| && Tame(s, w.task)
    ensures w.task.eventType !in {1, 2, 5} ==>
      |s.pushed| < |Iterate(s, w, debounce).pushed| && Iterate(s, w, debounce).pushed[|s.pushed|] == w.task
  {
    hide Inv, Tame, FlushUpTo;
    var q := Receive(s, w.task, w.updateAt);
    ReceiveKeepsInv(s, w.task, w.updateAt);
    ReceivePushes(s, w.task, w.updateAt);
    hide Receive;
    FlushIsExact(q, |q.pending|, Stable(w.flushAt, debounce));
  }

  /** What a stable flush leaves is to be debounced and too young. */
  lemma FlushLeavesYoung(s: Sched, now: int, debounce: int)
    requires Inv(s)
    ensures var r := Flush(s, Stable(now, debounce));
      && Keys(r.pending) <= Keys(s.pending)
      && forall p :: 0 <= p < |r.pending| && r.pending[p].Used? ==>
        var t := r.pending[p].value.task;
        && t.eventType in {1, 2, 5} && r.pending[p].key == t.relPath
        && t.arrival < |r.events| == |r.times| && r.events[t.arrival] == t && now - r.times[t.arrival] < debounce
  {
    hide Find, Ordered, Latest, Justified, PushOk;
    FlushIsExact(s, |s.pending|, Stable(now, debounce));
    var r := Flush(s, Stable(now, debounce));
    forall p | 0 <= p < |r.pending| && r.pending[p].Used?
      ensures r.pending[p] == s.pending[p] && EntryOk(s, p) && !Due(Stable(now, debounce), s.pending[p].value)
    {
      assert r.pending[p] == AfterFlush(s.pending[p], true, Stable(now, debounce));
    }
  }

  /** A delete or a rename leaves nothing pending for its path and its old path. */
  lemma ReceiveWithdraws(s: Sched, t: SyncTask, now: int)
    requires Inv(s) && t.eventType in {3, 4}
    ensures forall q :: q in Keys(Receive(s, t, now).pending) ==> q != t.relPath && (q == t.oldRelPath ==> q == [])
  {
    hide Find, Justified, EntryOk, PushOk, Ordered, Latest;
    ClearIsRemove(s.pending, t.relPath);
    ClearIsRemove(Clear(s.pending, t.relPath), t.oldRelPath);
    assert forall m: seq<Slot<Pending>> :: View(m).Keys == Keys(m);
  }

  // ---- The code ---------------------------------------------------------------------------------------------

  /** The table and the queue's push history are what the abstract state says. */
  ghost predicate Represents(table: Table<Pending>, queue: TaskQueue, s: Sched)
    reads table.slots, queue, queue.Repr
  {
    && queue.Valid() && !queue.stopped && queue.freed == [] && table.slots !in queue.Repr
    && table.slots[..] == s.pending && queue.accepted == s.pushed
  }

  method PendingRemove(table: Table<Pending>, relPath: text)
    modifies table.slots
    ensures table.slots[..] == Clear(old(table.slots[..]), relPath)
  {
    var idx := table.Lookup(relPath);
    if idx >= 0 {
      table.slots[idx] := Free;
    }
  }

  method PendingUpdateOrInsert(table: Table<Pending>, task: SyncTask, now: int)
    modifies table.slots
    ensures table.slots[..] == Put(old(table.slots[..]), task.relPath, Pending(task, now))
  {
    var idx := table.Lookup(task.relPath);
    if idx < 0 {
      idx := table.Allocate();
    }
    if idx < 0 {
      return;
    }
    table.slots[idx] := Used(task.relPath, Pending(task, now));
  }

  method FlushSlot(table: Table<Pending>, queue: TaskQueue, i: nat, w: When, ghost s: Sched)
    requires Represents(table, queue, s) && i < table.slots.Length
    modifies table.slots, queue.Repr
    ensures Represents(table, queue, FlushOne(s, i, w))
    ensures fresh(queue.Repr - old(queue.Repr))
  {
    var slot := table.slots[i];
    if slot.Used? && Due(w, slot.value) {
      var ok := queue.Push(slot.value.task, true);
      table.slots[i] := Free;
      assert table.slots[..] == s.pending[i := Free];
    }
  }

  /** pending_flush_stable_tasks and pending_flush_all. */
  method PendingFlush(table: Table<Pending>, queue: TaskQueue, w: When, ghost s: Sched)
    requires Represents(table, queue, s)
    modifies table.slots, queue.Repr
    ensures Represents(table, queue, Flush(s, w))
    ensures fresh(queue.Repr - old(queue.Repr))
  {
    ghost var cur := s;
    assert |s.pending| == table.slots.Length;
    hide Represents, FlushOne, Flush;
    for i := 0 to table.slots.Length
      invariant cur == FlushUpTo(s, i, w)
      invariant Represents(table, queue, cur)
      invariant fresh(queue.Repr - old(queue.Repr))
    {
      FlushSlot(table, queue, i, w, cur);
      cur := FlushOne(cur, i, w);
    }
    FlushIsFold(s, w);
  }

  /** The body of the branch that read an event other than EXIT. */
  method HandleEvent(table: Table<Pending>, queue: TaskQueue, task: SyncTask, now: int, ghost s: Sched)
    requires Represents(table, queue, s)
    modifies table.slots, queue.Repr
    ensures Represents(table, queue, Receive(s, task, now))
    ensures fresh(queue.Repr - old(queue.Repr))
  {
    if Immediate(task) {
      PendingRemove(table, task.relPath);
      if task.oldRelPath != [] {
        PendingRemove(table, task.oldRelPath);
      }
      var ok := queue.Push(task, true);
    } else if Debounced(task) {
      PendingUpdateOrInsert(table, task, now);
    } else {
      var ok := queue.Push(task, true);
    }
  }

  /** scheduler_thread_main: `wakes` is what the successive waits bring. */
  method SchedulerMain(table: Table<Pending>, queue: TaskQueue, wakes: seq<Wake>, debounce: int) returns (stop: bool)
    requires Represents(table, queue, Initial())
    modifies table.slots, queue.Repr
    ensures stop && queue.Valid() && queue.stopped
    ensures var r := Flush(Run(Initial(), wakes, debounce), Always);
      table.slots[..] == r.pending && queue.accepted == r.pushed
  {
    hide Represents, Receive, Flush;
    ghost var s := Initial();
    var i := 0;
    while i < |wakes|
      invariant i <= |wakes| && Represents(table, queue, s)
      invariant Run(s, wakes[i..], debounce) == Run(Initial(), wakes, debounce)
      invariant fresh(queue.Repr - old(queue.Repr))
    {
      var wake := wakes[i];
      assert wakes[i..][1..] == wakes[i + 1..];
      i := i + 1;
      if wake.Interrupted? {
        continue;
      }
      if wake.PipeBroken? {
        break;
      }
      if wake.Received? {
        if wake.task.eventType == EVENT_EXIT {
          break;
        }
        HandleEvent(table, queue, wake.task, wake.updateAt, s);
        s := Receive(s, wake.task, wake.updateAt);
      }
      PendingFlush(table, queue, Stable(wake.flushAt, debounce), s);
      s := Flush(s, Stable(wake.flushAt, debounce));
    }
    FlushAndStop(table, queue, s);
    stop := true;
  }

  method FlushAndStop(table: Table<Pending>, queue: TaskQueue, ghost s: Sched)
    requires Represents(table, queue, s)
    modifies table.slots, queue.Repr
    ensures queue.Valid() && queue.stopped
    ensures table.slots[..] == Flush(s, Always).pending && queue.accepted == Flush(s, Always).pushed
  {
    PendingFlush(table, queue, Always, s);
    queue.Stop();
  }
}
