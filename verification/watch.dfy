/** From the polled tree to the mirror: the differ of src/monitor.c feeding the transfer process. */
module Watch {
  import opened Bytes
  import opened Tasks
  import opened Scheduler
  import Mirror
  import Monitor

  /** The events of a poll as they are written to the pipe: `arrival` is their position in it. */
  function Written(events: seq<SyncTask>, from: nat): seq<Mirror.Step> {
    if events == [] then []
    else [Mirror.Announce(events[0].(arrival := from))] + Written(events[1..], from + 1)
  }

  /** Events about regular files, as the differ builds them. */
  ghost predicate AboutFiles(events: seq<SyncTask>) {
    forall e :: e in events ==> e.oldRelPath == [] && !e.isDir && e.retryCount == 0
  }

  /** The catalogue lists the files of the source. */
  ghost predicate Lists(to: Monitor.Catalogue, source: Mirror.Tree) { forall p :: p in to <==> p in source }

  /** Every unannounced change shows in what the differ compares. */
  ghost predicate Shows(w: Mirror.World, from: Monitor.Catalogue, to: Monitor.Catalogue) {
    forall p :: p in w.dirty ==> Monitor.Get(from, p) != Monitor.Get(to, p)
  }

  lemma TellsFits(e: SyncTask, from: Monitor.Catalogue, to: Monitor.Catalogue, source: Mirror.Tree)
    requires Monitor.Tells(e, from, to) && Lists(to, source)
    ensures Known(e) && Mirror.Fits(e, source)
  {
  }

  lemma FirstAnnounces(w: Mirror.World, e: SyncTask, from: Monitor.Catalogue, to: Monitor.Catalogue, debounce: int)
      returns (next: Mirror.World)
    requires Monitor.Tells(e, from, to) && Lists(to, w.source) && e.oldRelPath == [] && !e.isDir && e.retryCount == 0
    ensures var step := Mirror.Announce(e.(arrival := |Mirror.Events(w)|));
      Mirror.Enabled(w, step) && next == Mirror.Apply(w, step, debounce)
    ensures next.source == w.source && next.dirty == w.dirty - {e.relPath} && next.touched == w.touched + {e.relPath}
    ensures |Mirror.Events(next)| == |Mirror.Events(w)| + 1
  {
    var step := Mirror.Announce(e.(arrival := |Mirror.Events(w)|));
    TellsFits(e, from, to, w.source);
    Mirror.StepAnnounces(w, step, debounce);
    next := Mirror.Apply(w, step, debounce);
  }

  lemma OneStepFurther(w: Mirror.World, steps: seq<Mirror.Step>, next: Mirror.World, debounce: int, r: Mirror.World)
    requires steps != [] && Mirror.Enabled(w, steps[0]) && next == Mirror.Apply(w, steps[0], debounce)
    requires Mirror.Reaches(next, steps[1..], debounce, r)
    ensures Mirror.Reaches(w, steps, debounce, r)
  {
    hide Mirror.Apply, Mirror.Enabled;
  }

  lemma {:induction false} WrittenPaths(events: seq<SyncTask>, from: nat)
    ensures Paths(Mirror.Announcements(Written(events, from))) == Paths(events)
  {
    if events != [] {
      hide Paths;
      var steps := Written(events[1..], from + 1);
      WrittenPaths(events[1..], from + 1);
      assert Written(events, from)[1..] == steps;
      var told := [events[0].(arrival := from)] + Mirror.Announcements(steps);
      assert told[1..] == Mirror.Announcements(steps);
      PathsOfFirst(events);
      PathsOfFirst(told);
    }
  }

  /** The events announce exactly their paths, and change nothing else. */
  lemma {:induction false} WrittenAnnounces(w: Mirror.World, events: seq<SyncTask>, from: Monitor.Catalogue,
          to: Monitor.Catalogue, debounce: int)
      returns (r: Mirror.World)
    requires AboutFiles(events) && Lists(to, w.source) && forall e :: e in events ==> Monitor.Tells(e, from, to)
    ensures Mirror.Reaches(w, Written(events, |Mirror.Events(w)|), debounce, r)
    ensures r.source == w.source && r.dirty == w.dirty - Paths(events) && r.touched == w.touched + Paths(events)
    decreases events
  {
    if events == [] {
      r := w;
    } else {
      hide Mirror.Apply, Mirror.Enabled, Mirror.Events, Mirror.Reaches, Paths;
      var n, e, rest := |Mirror.Events(w)|, events[0], events[1..];
      assert e in events && forall x :: x in rest ==> x in events;
      var next := FirstAnnounces(w, e, from, to, debounce);
      r := WrittenAnnounces(next, rest, from, to, debounce);
      PathsOfFirst(events);
      OneStepFurther(w, Written(events, n), next, debounce, r);
    }
  }

  lemma PathsOfFirst(events: seq<SyncTask>)
    requires events != []
    ensures Paths(events) == {events[0].relPath} + Paths(events[1..])
  {
    assert events == [events[0]] + events[1..];
    assert events[0] in events && forall x :: x in events[1..] ==> x in events;
  }

  /**
   * The events of an exact poll are legal announcements, and behind them no change is unannounced,
   * provided that every change of a file shows in its size, time or mode.
   */
  lemma PollAnnounces(w: Mirror.World, events: seq<SyncTask>, from: Monitor.Catalogue, to: Monitor.Catalogue,
          debounce: int)
      returns (r: Mirror.World)
    requires Monitor.ExactDiff(events, from, to) && AboutFiles(events) && Lists(to, w.source) && Shows(w, from, to)
    ensures Mirror.Reaches(w, Written(events, |Mirror.Events(w)|), debounce, r)
    ensures r.dirty == {} && r.source == w.source && w.touched <= r.touched
    ensures Paths(Mirror.Announcements(Written(events, |Mirror.Events(w)|))) == Paths(events)
  {
    forall e | e in events
      ensures Monitor.Tells(e, from, to)
    {
      var i :| 0 <= i < |events| && events[i] == e;
    }
    forall p | p in w.dirty
      ensures p in Paths(events)
    {
      var i :| 0 <= i < |events| && events[i].relPath == p;
      assert events[i] in events;
    }
    r := WrittenAnnounces(w, events, from, to, debounce);
    WrittenPaths(events, |Mirror.Events(w)|);
  }

  /**
   * From the tree to the mirror: after any run, one exact poll and no further changes, the client
   * comes to a rest in which every file touched so far is in the mirror exactly as in the source,
   * if the paths of the run and the poll are no more than the scheduler has slots.
   */
  lemma PollReachesMirror(w: Mirror.World, steps: seq<Mirror.Step>, now: Mirror.World,
      events: seq<SyncTask>, from: Monitor.Catalogue, to: Monitor.Catalogue, debounce: int)
      returns (more: seq<Mirror.Step>, r: Mirror.World)
    requires Mirror.Start(w) && Mirror.Reaches(w, steps, debounce, now)
    requires Monitor.ExactDiff(events, from, to) && AboutFiles(events) && Lists(to, now.source) && Shows(now, from, to)
    requires |Paths(Mirror.Announcements(steps)) + Paths(events)| <= MAX_PENDING_TASKS
    ensures Mirror.Reaches(now, Written(events, |Mirror.Events(now)|) + more, debounce, r)
    ensures Mirror.Quiescent(r) && r.source == now.source
    ensures forall p :: p in now.touched ==> Mirror.Get(r.mirror, p) == Mirror.Get(now.source, p)
  {
    hide Mirror.Reaches, Mirror.Start, Mirror.Quiescent, Paths, AboutFiles, Lists, Shows, Monitor.ExactDiff, Written;
    var written := Written(events, |Mirror.Events(now)|);
    var told := PollAnnounces(now, events, from, to, debounce);
    Mirror.ReachesConcat(w, steps, now, written, told, debounce);
    PathsOfBoth(Mirror.Announcements(steps), Mirror.Announcements(written));
    more, r := Mirror.MirrorCatchesUp(w, steps + written, debounce, told);
    Mirror.ReachesConcat(now, written, told, more, r, debounce);
  }

  lemma PathsOfBoth(a: seq<SyncTask>, b: seq<SyncTask>)
    ensures Paths(a + b) == Paths(a) + Paths(b)
  {
    assert forall t :: t in a + b <==> t in a || t in b;
  }
}
