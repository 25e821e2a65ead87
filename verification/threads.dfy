/** Connection threads at work together (src/server.c): every interleaving is one request after the other. */
module Threads {
  import opened Bytes
  import opened Io
  import opened FileTree
  import opened Serial
  import opened Store
  import opened Server
  import opened Connection

  /** A job with the time stamp it used, whether it succeeded, and whether no call faulted. */
  datatype Request = Request(job: Job, stamp: text, ok: bool, clean: bool)

  ghost predicate Done(fs: Files, gs: Files, root: text, r: Request) {
    Handled(fs, gs, root, r.job, r.stamp, r.ok, r.clean)
  }

  /** Played from the files `fs`, the acts of a critical section do what the request is to do. */
  ghost predicate Serves(fs: Files, acts: seq<Act>, root: text, r: Request) {
    Play(fs, acts).Some? && Done(fs, Play(fs, acts).value, root, r)
  }

  /**
   * server_client_thread: whatever other threads made of the files before each of its looks and
   * before it got the mutex, the thread is disciplined, and its critical section, if there is one,
   * serves a request on them.
   */
  method ClientThread(src: Source, sink: Sink, disk: Disk, root: text, stamp: text, views: Views, found: Files)
    returns (ghost r: Request)
    requires src.Valid() && disk.Valid() && !disk.locked && Tree(found) && forall k :: Tree(views(k))
    modifies src, sink, disk
    ensures disk.Valid() && !disk.locked && Disciplined(disk.acts)
    ensures old(disk.sections) <= disk.sections <= old(disk.sections) + 1
    ensures disk.sections > old(disk.sections) ==> Serves(found, LatestSection(disk.acts), root, r)
    ensures disk.sections == old(disk.sections) ==> disk.files == old(disk.files)
  {
    hide Handled, Conversation, Tree;
    var ok, job, _ := HandleConnection(src, sink, disk, root, stamp, views, found);
    r := Request(job, stamp, ok, !disk.faulted);
  }

  // ---- Runs of such threads --------------------------------------------------------------------------------

  /** The files when the mutex was last taken. */
  ghost function Found(fs: Files, run: seq<Step>): Option<Files> {
    if run == [] then None
    else if run[|run| - 1].act.Lock? then Interleave(fs, run[..|run| - 1])
    else Found(fs, run[..|run| - 1])
  }

  /**
   * Whenever a thread gives the mutex back, its section serves a request on the files it had found;
   * `requests` lists them in the order in which the mutex was taken.
   */
  ghost predicate AllServe(fs: Files, run: seq<Step>, root: text, requests: seq<Request>) {
    run == [] ||
    var init, last := run[..|run| - 1], run[|run| - 1];
    && AllServe(fs, init, root, requests)
    && (last.act.Unlock? && Found(fs, run).Some? && SectionsOf(run) != [] ==>
      && |SectionsOf(run)| <= |requests|
      && Serves(Found(fs, run).value, LatestSection(Of(run, last.thread)), root, requests[|SectionsOf(run)| - 1]))
  }

  lemma LatestNext(acts: seq<Act>, last: Act)
    ensures LatestSection(acts + [last]) ==
      if last.Lock? then [last] else if Holding(acts) then LatestSection(acts) + [last] else LatestSection(acts)
  {
    assert (acts + [last])[..|acts|] == acts;
  }

  lemma InterleaveNext(fs: Files, init: seq<Step>, last: Step)
    requires Interleave(fs, init + [last]).Some?
    ensures Interleave(fs, init).Some? && Fits(Interleave(fs, init).value, last.act)
    ensures Interleave(fs, init + [last]) == Some(Next(Interleave(fs, init).value, last.act))
    ensures Found(fs, init + [last]) == if last.act.Lock? then Interleave(fs, init) else Found(fs, init)
    ensures Holder(init + [last]) ==
      match last.act case Lock => Some(last.thread) case Unlock => None case _ => Holder(init)
  {
    assert (init + [last])[..|init|] == init;
  }

  /** The owner's section, played alone from what it found, gives the present files. */
  lemma {:induction false} SectionAlone(fs: Files, run: seq<Step>, t: nat)
    requires Interleave(fs, run).Some? && AllDisciplined(run) && Holder(run) == Some(t)
    ensures Found(fs, run).Some? && Play(Found(fs, run).value, LatestSection(Of(run, t))) == Interleave(fs, run)
  {
    hide Disciplined, Play, Fits, Next, Interleave, LatestSection, Holding, Found;
    var init, last := run[..|run| - 1], run[|run| - 1];
    assert run == init + [last];
    MayStep(fs, init, last);
    InterleaveNext(fs, init, last);
    OfNext(init, last, t);
    LatestNext(Of(init, t), last.act);
    HolderHolds(fs, init, t);
    if last.act.Lock? {
      PlayNext(Interleave(fs, init).value, [], Lock);
      assert [] + [Lock] == [Lock];
      PlayNothing(Interleave(fs, init).value);
    } else {
      SectionAlone(fs, init, t);
      PlayNext(Found(fs, init).value, LatestSection(Of(init, t)), last.act);
      if last.thread != t {
        NextOfQuiet(Interleave(fs, init).value, last.act);
      }
    }
  }

  lemma PlayNothing(fs: Files)
    ensures Play(fs, []) == Some(fs) && Fits(fs, Lock) && Next(fs, Lock) == fs
  {
  }

  /** Each state comes from the one before it by the request at its place. */
  ghost predicate Chain(states: seq<Files>, root: text, requests: seq<Request>) {
    |states| - 1 <= |requests| && forall i :: 0 <= i < |states| - 1 ==>
      Done(states[i], states[i + 1], root, requests[i])
  }

  lemma ChainNext(states: seq<Files>, gs: Files, root: text, requests: seq<Request>)
    requires states != [] && Chain(states, root, requests) && |states| <= |requests|
    requires Done(states[|states| - 1], gs, root, requests[|states| - 1])
    ensures Chain(states + [gs], root, requests)
  {
    hide Done;
  }

  /** How many sections there are, and which files the next request starts from. */
  ghost predicate UpTo(fs: Files, run: seq<Step>, states: seq<Files>) {
    && states != [] && states[0] == fs
    && (Tree(fs) ==> forall i :: 0 <= i < |states| ==> Tree(states[i]))
    && |SectionsOf(run)| == (if Holder(run).Some? then |states| else |states| - 1)
    && Some(states[|states| - 1]) == if Holder(run).Some? then Found(fs, run) else Interleave(fs, run)
  }

  /** The same while the mutex is taken, up to the files its owner found. */
  lemma {:induction false} UpToNow(fs: Files, run: seq<Step>, root: text, requests: seq<Request>)
    returns (states: seq<Files>)
    requires Interleave(fs, run).Some? && AllDisciplined(run) && AllServe(fs, run, root, requests)
    ensures UpTo(fs, run, states) && Chain(states, root, requests)
  {
    hide Disciplined, Play, Fits, Next, Interleave, LatestSection, Holding, Found, Done, Shaped, Holder, SectionsOf;
    hide Chain;
    if run == [] {
      states := [fs];
      NothingYet(fs, root, requests);
    } else {
      var init, last := run[..|run| - 1], run[|run| - 1];
      assert run == init + [last];
      MayStep(fs, init, last);
      InterleaveNext(fs, init, last);
      states := UpToNow(fs, init, root, requests);
      hide UpTo, AllServe;
      if last.act.Unlock? {
        UnlockEnds(fs, init, last, root, requests, states);
        ChainNext(states, Interleave(fs, run).value, root, requests);
        states := states + [Interleave(fs, run).value];
      } else {
        NothingEnds(fs, init, last, states);
      }
    }
  }

  lemma NothingEnds(fs: Files, init: seq<Step>, last: Step, states: seq<Files>)
    requires Interleave(fs, init + [last]).Some? && AllDisciplined(init + [last]) && !last.act.Unlock?
    requires UpTo(fs, init, states)
    ensures UpTo(fs, init + [last], states)
  {
    hide Disciplined, Play, Fits, Next, Interleave, Holding, Found, Holder, SectionsOf;
    MayStep(fs, init, last);
    InterleaveNext(fs, init, last);
    SectionsNext(init, last);
    if Holder(init).None? && !last.act.Lock? {
      NextOfQuiet(Interleave(fs, init).value, last.act);
    }
  }

  lemma UnlockEnds(fs: Files, init: seq<Step>, last: Step, root: text, requests: seq<Request>, states: seq<Files>)
    requires Interleave(fs, init + [last]).Some? && AllDisciplined(init + [last]) && last.act.Unlock?
    requires UpTo(fs, init, states)
    requires AllServe(fs, init + [last], root, requests)
    ensures UpTo(fs, init + [last], states + [Interleave(fs, init + [last]).value]) && |states| <= |requests|
    ensures Done(states[|states| - 1], Interleave(fs, init + [last]).value, root, requests[|states| - 1])
  {
    hide Tree, Disciplined, Play, Fits, Next, Interleave, LatestSection, Holding, Found, Done, Shaped, Holder;
    hide SectionsOf, AllServe;
    MayStep(fs, init, last);
    InterleaveNext(fs, init, last);
    SectionsNext(init, last);
    SectionAlone(fs, init, last.thread);
    UnlockPlays(fs, init, last);
    UnlockServes(fs, init, last, root, requests);
    if Tree(fs) {
      InterleaveKeepsTree(fs, init + [last]);
    }
  }

  lemma {:induction false} InterleaveKeepsTree(fs: Files, run: seq<Step>)
    requires Tree(fs) && Interleave(fs, run).Some?
    ensures Tree(Interleave(fs, run).value)
  {
    hide Tree, Succeeds, Effect;
    if run != [] {
      var init, last := run[..|run| - 1], run[|run| - 1];
      assert run == init + [last];
      InterleaveNext(fs, init, last);
      InterleaveKeepsTree(fs, init);
      if last.act.Did? {
        EffectKeepsTree(last.act.op, Interleave(fs, init).value);
      }
    }
  }

  /** The section that ends has served its request. */
  lemma UnlockServes(fs: Files, init: seq<Step>, last: Step, root: text, requests: seq<Request>)
    requires AllServe(fs, init + [last], root, requests) && last.act.Unlock? && SectionsOf(init + [last]) != []
    requires Found(fs, init + [last]).Some? && Interleave(fs, init + [last]).Some?
    requires Play(Found(fs, init + [last]).value, LatestSection(Of(init + [last], last.thread))) ==
      Interleave(fs, init + [last])
    ensures |SectionsOf(init + [last])| <= |requests|
    ensures Done(Found(fs, init + [last]).value, Interleave(fs, init + [last]).value, root,
      requests[|SectionsOf(init + [last])| - 1])
  {
    hide Play, Interleave, LatestSection, Found, SectionsOf, Of, Done;
    assert (init + [last])[..|init|] == init;
  }

  lemma NothingYet(fs: Files, root: text, requests: seq<Request>)
    ensures UpTo(fs, [], [fs]) && Chain([fs], root, requests)
  {
  }

  /** Giving the mutex back ends the section and changes no files. */
  lemma UnlockPlays(fs: Files, init: seq<Step>, last: Step)
    requires Interleave(fs, init + [last]).Some? && AllDisciplined(init + [last]) && last.act.Unlock?
    requires Holder(init) == Some(last.thread)
    requires Found(fs, init).Some?
    requires Play(Found(fs, init).value, LatestSection(Of(init, last.thread))) == Interleave(fs, init)
    ensures Play(Found(fs, init).value, LatestSection(Of(init + [last], last.thread))) == Interleave(fs, init + [last])
  {
    hide Disciplined, Play, LatestSection, Holding, Found, Interleave;
    MayStep(fs, init, last);
    InterleaveNext(fs, init, last);
    OfNext(init, last, last.thread);
    HolderHolds(fs, init, last.thread);
    LatestNext(Of(init, last.thread), last.act);
    PlayNext(Found(fs, init).value, LatestSection(Of(init, last.thread)), last.act);
    NextOfQuiet(Interleave(fs, init).value, last.act);
  }

  /**
   * Serial equivalence for the handlers: in every interleaving of connection threads, whenever the
   * mutex is free the files are those after the requests one by one, in the order of taking it.
   */
  lemma {:induction false} RequestsOneByOne(fs: Files, run: seq<Step>, root: text, requests: seq<Request>)
    returns (states: seq<Files>)
    requires Interleave(fs, run).Some? && AllDisciplined(run) && AllServe(fs, run, root, requests) && Holder(run).None?
    ensures |states| == |SectionsOf(run)| + 1 && |SectionsOf(run)| <= |requests|
    ensures states[0] == fs && Some(states[|SectionsOf(run)|]) == Interleave(fs, run)
    ensures forall i :: 0 <= i < |SectionsOf(run)| ==> Done(states[i], states[i + 1], root, requests[i])
    ensures Tree(fs) ==> forall i :: 0 <= i < |states| ==> Tree(states[i])
  {
    hide Tree, Interleave, Holder, SectionsOf, Done, AllServe, AllDisciplined;
    states := UpToNow(fs, run, root, requests);
  }
}
