/**
 * The threads that share one task queue (src/task_queue.c): a transition system over the mutex and
 * the condition variable, in which a signal wakes at least one sleeper (and maybe more), sleepers
 * may wake for no reason, and a woken thread must win the mutex back before it runs.
 */
module WakeUps {
  import opened Bytes
  import opened Tasks

  type Tid = nat

  datatype Call = PushCall(task: SyncTask) | PopCall | StopCall

  datatype Pc =
    | Outside
    | Locking(call: Call)   // in pthread_mutex_lock
    | AtTest                // holds the mutex, at the wait loop of pop
    | Asleep                // in pthread_cond_wait
    | Woken                 // back from the wait, without the mutex yet
    | AtTake                // holds the mutex, about to unlink the front node
    | AtInsert(task: SyncTask)
    | AtSignal              // has appended a node, about to signal
    | AtStop
    | AtBroadcast           // has set `stopped`, about to broadcast
    | AtUnlock

  predicate Holds(pc: Pc) {
    !pc.Outside? && !pc.Locking? && !pc.Asleep? && !pc.Woken?
  }

  datatype State = State(
    pcs: map<Tid, Pc>, owner: Option<Tid>, queue: seq<SyncTask>, stopped: bool,
    accepted: seq<SyncTask>, popped: seq<SyncTask>, drained: bool)

  datatype Step =
    | Begin(t: Tid, call: Call)
    | Lock(t: Tid)
    | Test(t: Tid)
    | Take(t: Tid)
    | Insert(t: Tid)
    | Signal(t: Tid, chosen: set<Tid>)
    | SetStop(t: Tid)
    | Broadcast(t: Tid)
    | Unlock(t: Tid)
    | Spurious(t: Tid)

  function Sleepers(s: State): set<Tid> { set t | t in s.pcs && s.pcs[t].Asleep? }
  function Ready(s: State): set<Tid> { set t | t in s.pcs && s.pcs[t].Woken? }

  predicate Enabled(s: State, step: Step) {
    && step.t in s.pcs
    && var pc := s.pcs[step.t];
      match step
      case Begin(_, _) => pc.Outside?
      case Lock(_) => (pc.Locking? || pc.Woken?) && s.owner.None?
      case Test(_) => pc.AtTest?
      case Take(_) => pc.AtTake?
      case Insert(_) => pc.AtInsert?
      case Signal(_, chosen) => pc.AtSignal? && chosen <= Sleepers(s) && (chosen == {} ==> Sleepers(s) == {})
      case SetStop(_) => pc.AtStop?
      case Broadcast(_) => pc.AtBroadcast?
      case Unlock(_) => pc.AtUnlock?
      case Spurious(_) => pc.Asleep?
  }

  function Wake(pcs: map<Tid, Pc>, chosen: set<Tid>): map<Tid, Pc> {
    map t | t in pcs :: if t in chosen then Woken else pcs[t]
  }

  function Apply(s: State, step: Step): State
    requires Enabled(s, step)
  {
    var t := step.t;
    match step
    case Begin(_, call) => s.(pcs := s.pcs[t := Locking(call)])
    case Lock(_) =>
      var pc := if s.pcs[t].Woken? || s.pcs[t].call.PopCall? then AtTest
        else if s.pcs[t].call.PushCall? then AtInsert(s.pcs[t].call.task) else AtStop;
      s.(pcs := s.pcs[t := pc], owner := Some(t))
    case Test(_) =>
      if s.queue == [] && !s.stopped then s.(pcs := s.pcs[t := Asleep], owner := None)
      else if s.queue == [] then s.(pcs := s.pcs[t := AtUnlock], drained := true)
      else s.(pcs := s.pcs[t := AtTake])
    case Take(_) =>
      if s.queue == [] then s
      else s.(pcs := s.pcs[t := AtUnlock], queue := s.queue[1..], popped := s.popped + [s.queue[0]])
    case Insert(_) =>
      if s.stopped then s.(pcs := s.pcs[t := AtUnlock])
      else s.(pcs := s.pcs[t := AtSignal], queue := s.queue + [s.pcs[t].task], accepted := s.accepted + [s.pcs[t].task])
    case Signal(_, chosen) => s.(pcs := Wake(s.pcs, chosen)[t := AtUnlock])
    case SetStop(_) => s.(pcs := s.pcs[t := AtBroadcast], stopped := true)
    case Broadcast(_) => s.(pcs := Wake(s.pcs, Sleepers(s))[t := AtUnlock])
    case Unlock(_) => s.(pcs := s.pcs[t := Outside], owner := None)
    case Spurious(_) => s.(pcs := s.pcs[t := Woken])
  }

  ghost predicate Initial(s: State) {
    && (forall t :: t in s.pcs ==> s.pcs[t].Outside?)
    && s.owner.None? && !s.stopped && !s.drained && s.queue == s.accepted == s.popped == []
  }

  /** The thread holding the mutex will still look at the queue, or still owes a signal. */
  predicate OwnerCounts(s: State) {
    s.owner.Some? && s.owner.value in s.pcs &&
    (s.pcs[s.owner.value].AtTest? || s.pcs[s.owner.value].AtTake? || s.pcs[s.owner.value].AtSignal?)
  }

  /** Wake-ups that have been granted and not yet been used up. */
  function Credit(s: State): nat { |Ready(s)| + if OwnerCounts(s) then 1 else 0 }

  ghost predicate Exclusive(s: State) {
    && (s.owner.Some? ==> s.owner.value in s.pcs && Holds(s.pcs[s.owner.value]))
    && (forall t :: t in s.pcs && Holds(s.pcs[t]) ==> s.owner == Some(t))
  }

  ghost predicate Local(s: State) {
    && Exclusive(s)
    && s.accepted == s.popped + s.queue
    && (forall t :: t in s.pcs ==>
          && (s.pcs[t].AtTake? ==> s.queue != [])
          && (s.pcs[t].AtSignal? ==> !s.stopped)
          && (s.pcs[t].AtBroadcast? ==> s.stopped))
    && (s.drained ==> s.stopped && s.queue == [])
  }

  ghost predicate Counting(s: State) {
    && (s.stopped && !(s.owner.Some? && s.owner.value in s.pcs && s.pcs[s.owner.value].AtBroadcast?) ==>
      Sleepers(s) == {})
    && (Sleepers(s) != {} ==> Credit(s) >= |s.queue|)
  }

  ghost predicate Inv(s: State) { Local(s) && Counting(s) }

  lemma LocalKept(s: State, step: Step)
    requires Local(s) && Enabled(s, step)
    ensures Local(Apply(s, step))
  {
    hide Sleepers, Ready;
  }

  /** The only steps that move threads in or out of the wait. */
  lemma WaitersAfter(s: State, step: Step)
    requires Enabled(s, step)
    ensures var r, t := Apply(s, step), step.t;
      match step
      case Lock(_) => Ready(r) == Ready(s) - {t} && Sleepers(r) == Sleepers(s)
      case Test(_) =>
        && Ready(r) == Ready(s) && Sleepers(r) == (if r.pcs[t].Asleep? then Sleepers(s) + {t} else Sleepers(s))
        && (r.pcs[t].Asleep? <==> s.queue == [] && !s.stopped) && (r.pcs[t].AtTake? <==> s.queue != [])
        && (r.drained <==> s.drained || (s.queue == [] && s.stopped))
      case Signal(_, chosen) =>
        Ready(r) == Ready(s) + chosen && chosen !! Ready(s) && Sleepers(r) == Sleepers(s) - chosen
      case Broadcast(_) => Sleepers(r) == {}
      case Spurious(_) => Ready(r) == Ready(s) + {t} && t !in Ready(s) && Sleepers(r) == Sleepers(s) - {t}
      case _ => Ready(r) == Ready(s) && Sleepers(r) == Sleepers(s)
  {
  }

  lemma CreditAfter(s: State, step: Step)
    requires Local(s) && Enabled(s, step)
    ensures var r := Apply(s, step);
      match step
      case Take(_) => Credit(r) == Credit(s) - 1
      case Insert(_) => Credit(r) == if s.stopped then Credit(s) else Credit(s) + 1
      case Test(_) => Credit(r) >= (if r.pcs[step.t].AtTake? then Credit(s) else 0)
      case Signal(_, chosen) => chosen != {} ==> Credit(r) >= Credit(s)
      case Broadcast(_) => true
      case _ => Credit(r) >= Credit(s)
  {
    WaitersAfter(s, step);
    hide Sleepers, Ready, Wake;
    var r := Apply(s, step);
    match step {
      case Lock(_) =>
        if s.pcs[step.t].Woken? {
          assert |Ready(r)| >= |Ready(s)| - 1;
        } else {
          WokenIsReady(s, step.t);
          assert Ready(r) == Ready(s);
        }
      case Signal(_, chosen) =>
        assert |Ready(s) + chosen| == |Ready(s)| + |chosen|;
      case _ =>
    }
  }

  lemma WokenIsReady(s: State, t: Tid)
    requires t in s.pcs
    ensures t in Ready(s) <==> s.pcs[t].Woken?
    ensures t in Sleepers(s) <==> s.pcs[t].Asleep?
  {
  }

  lemma CountingKept(s: State, step: Step)
    requires Local(s) && Counting(s) && Enabled(s, step)
    ensures Counting(Apply(s, step))
  {
    WaitersAfter(s, step);
    CreditAfter(s, step);
    hide Sleepers, Ready, Wake, OwnerCounts, Credit;
  }

  ghost predicate Reaches(s: State, steps: seq<Step>, r: State)
    decreases steps
  {
    if steps == [] then s == r else Enabled(s, steps[0]) && Reaches(Apply(s, steps[0]), steps[1..], r)
  }

  lemma {:induction false} ReachableInv(s: State, steps: seq<Step>, r: State)
    requires Inv(s) && Reaches(s, steps, r)
    ensures Inv(r)
    decreases steps
  {
    hide Local, Counting;
    if steps != [] {
      LocalKept(s, steps[0]);
      CountingKept(s, steps[0]);
      ReachableInv(Apply(s, steps[0]), steps[1..], r);
    }
  }

  /**
   * No lost wake-up: whenever the mutex is free and some worker sleeps, at least as many threads
   * have been woken without having run yet as there are tasks, and after stop nobody sleeps. Pops
   * take tasks in push order, and none has returned 0 unless the queue is stopped and empty for good.
   */
  lemma NoLostWakeUp(s: State, steps: seq<Step>, r: State)
    requires Initial(s) && Reaches(s, steps, r) && r.owner.None?
    ensures Sleepers(r) != {} ==> |Ready(r)| >= |r.queue|
    ensures r.stopped ==> Sleepers(r) == {}
    ensures r.accepted == r.popped + r.queue
    ensures r.drained ==> r.stopped && r.queue == []
  {
    assert Sleepers(s) == {};
    ReachableInv(s, steps, r);
  }

  /** So a task never waits for a sleeper: if there is one of each, some woken thread can go on. */
  lemma SomeoneTakesIt(s: State, steps: seq<Step>, r: State) returns (t: Tid)
    requires Initial(s) && Reaches(s, steps, r) && r.owner.None? && r.queue != [] && Sleepers(r) != {}
    ensures Enabled(r, Lock(t)) && r.pcs[t].Woken?
    ensures var r1 := Apply(r, Lock(t)); Enabled(r1, Test(t)) && Enabled(Apply(r1, Test(t)), Take(t))
  {
    NoLostWakeUp(s, steps, r);
    assert Ready(r) != {};
    t :| t in Ready(r);
  }
}
