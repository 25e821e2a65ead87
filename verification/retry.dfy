/** The worker pool of src/transfer.c and its bounded retries. */
module Retry {
  import opened Bytes
  import opened Tasks
  import opened Queue

  const MAX_ATTEMPTS := MAX_RETRY_COUNT + 1

  // ---- The code ------------------------------------------------------------------------------------

  /** requeue_or_fail: the task goes to the back of the queue once more, unless it has had its retries. */
  method RequeueOrFail(queue: TaskQueue, task: SyncTask, memory: bool) returns (requeued: bool)
    requires queue.Valid() && queue.freed == []
    modifies queue.Repr
    ensures queue.Valid() && fresh(queue.Repr - old(queue.Repr))
    ensures requeued <==> Requeued(task) != []
    ensures queue.Contents() == old(queue.Contents()) + if memory && !old(queue.stopped) then Requeued(task) else []
  {
    if task.retryCount < MAX_RETRY_COUNT {
      var again := task.(retryCount := task.retryCount + 1);
      var ok := queue.Push(again, memory);
      return true;
    }
    return false;
  }

  // ---- The threads -----------------------------------------------------------------------------------

  /** The queue, what each worker is busy with, the scheduler's accepted pushes and the attempts begun. */
  datatype Pool = Pool(queue: seq<SyncTask>, busy: seq<Option<SyncTask>>, pushes: seq<SyncTask>,
    attempts: seq<SyncTask>)

  datatype Step =
    | Push(task: SyncTask)
    | Pop(worker: nat)
    | Finish(worker: nat, success: bool, accepted: bool)

  ghost predicate Enabled(p: Pool, step: Step) {
    match step
    case Push(t) => t.retryCount == 0
    case Pop(w) => w < |p.busy| && p.busy[w].None? && p.queue != []
    case Finish(w, _, _) => w < |p.busy| && p.busy[w].Some?
  }

  /** `accepted` is whether the queue takes the task back: it refuses when stopped or out of memory. */
  ghost function Apply(p: Pool, step: Step): Pool
    requires Enabled(p, step)
  {
    match step
    case Push(t) => p.(queue := p.queue + [t], pushes := p.pushes + [t])
    case Pop(w) =>
      p.(queue := p.queue[1..], busy := p.busy[w := Some(p.queue[0])], attempts := p.attempts + [p.queue[0]])
    case Finish(w, success, accepted) =>
      p.(busy := p.busy[w := None],
         queue := p.queue + if !success && accepted then Requeued(p.busy[w].value) else [])
  }

  /** Whose tasks to count: one event's, or everybody's. */
  ghost predicate Matches(t: SyncTask, who: Option<nat>) { who.Some? ==> t.arrival == who.value }

  /** Attempts a task with this retry count may still begin. */
  function Left(t: SyncTask): int { MAX_ATTEMPTS - t.retryCount }

  ghost function Count(s: seq<SyncTask>, who: Option<nat>): nat {
    if s == [] then 0 else Count(s[..|s| - 1], who) + if Matches(s[|s| - 1], who) then 1 else 0
  }

  ghost function QueueLeft(s: seq<SyncTask>, who: Option<nat>): int {
    if s == [] then 0 else QueueLeft(s[..|s| - 1], who) + if Matches(s[|s| - 1], who) then Left(s[|s| - 1]) else 0
  }

  ghost function Worth(x: Option<SyncTask>, who: Option<nat>, spent: int): int {
    if x.Some? && Matches(x.value, who) then Left(x.value) - spent else 0
  }

  /** For busy workers `spent` of the current attempt no longer counts. */
  ghost function BusyLeft(b: seq<Option<SyncTask>>, who: Option<nat>, spent: int): int {
    if b == [] then 0 else BusyLeft(b[..|b| - 1], who, spent) + Worth(b[|b| - 1], who, spent)
  }

  ghost predicate Bounded(p: Pool) {
    && (forall t :: t in p.queue ==> t.retryCount <= MAX_RETRY_COUNT)
    && (forall w :: 0 <= w < |p.busy| && p.busy[w].Some? ==> p.busy[w].value.retryCount <= MAX_RETRY_COUNT)
  }

  /** Attempts begun and attempts left add up to at most four for every accepted push. */
  ghost predicate Budget(p: Pool, who: Option<nat>) {
    Count(p.attempts, who) + QueueLeft(p.queue, who) + BusyLeft(p.busy, who, 1) <= MAX_ATTEMPTS * Count(p.pushes, who)
  }

  lemma {:induction false} QueueLeftFront(s: seq<SyncTask>, who: Option<nat>)
    requires s != []
    ensures QueueLeft(s, who) == QueueLeft(s[1..], who) + if Matches(s[0], who) then Left(s[0]) else 0
  {
    if |s| > 1 {
      QueueLeftFront(s[..|s| - 1], who);
      assert s[..|s| - 1][1..] == s[1..][..|s[1..]| - 1];
    }
  }

  lemma {:induction false} BusyLeftUpdate(b: seq<Option<SyncTask>>, w: nat, x: Option<SyncTask>, who: Option<nat>,
          spent: int)
    requires w < |b|
    ensures BusyLeft(b[w := x], who, spent) - Worth(x, who, spent) == BusyLeft(b, who, spent) - Worth(b[w], who, spent)
  {
    if w < |b| - 1 {
      BusyLeftUpdate(b[..|b| - 1], w, x, who, spent);
      assert b[w := x][..|b| - 1] == b[..|b| - 1][w := x];
    } else {
      assert b[w := x][..|b| - 1] == b[..|b| - 1];
    }
  }

  lemma StepKeepsBounded(p: Pool, step: Step)
    requires Bounded(p) && Enabled(p, step)
    ensures Bounded(Apply(p, step))
  {
    hide QueueLeft, BusyLeft, Count;
    var r := Apply(p, step);
    forall t | t in r.queue
      ensures t.retryCount <= MAX_RETRY_COUNT
    {
      assert t !in p.queue ==> t == r.queue[|r.queue| - 1];
    }
  }

  lemma AddOne(s: seq<SyncTask>, t: SyncTask, who: Option<nat>)
    ensures Count(s + [t], who) == Count(s, who) + (if Matches(t, who) then 1 else 0)
    ensures QueueLeft(s + [t], who) == QueueLeft(s, who) + (if Matches(t, who) then Left(t) else 0)
  {
    assert (s + [t])[..|s|] == s;
  }

  lemma StepKeepsBudget(p: Pool, step: Step, who: Option<nat>)
    requires Bounded(p) && Budget(p, who) && Enabled(p, step)
    ensures Budget(Apply(p, step), who)
  {
    hide Count, QueueLeft, BusyLeft;
    match step {
      case Push(t) =>
        AddOne(p.queue, t, who);
        AddOne(p.pushes, t, who);
      case Pop(w) =>
        QueueLeftFront(p.queue, who);
        BusyLeftUpdate(p.busy, w, Some(p.queue[0]), who, 1);
        AddOne(p.attempts, p.queue[0], who);
      case Finish(w, _, _) =>
        assert p.queue + [] == p.queue;
        BusyLeftUpdate(p.busy, w, None, who, 1);
        AddOne(p.queue, p.busy[w].value.(retryCount := p.busy[w].value.retryCount + 1), who);
    }
  }

  ghost function Run(p: Pool, steps: seq<Step>): Option<Pool>
    decreases steps
  {
    if steps == [] then Some(p) else if Enabled(p, steps[0]) then Run(Apply(p, steps[0]), steps[1..]) else None
  }

  lemma {:induction false} RunKeepsBudget(p: Pool, steps: seq<Step>, who: Option<nat>)
    requires Bounded(p) && Budget(p, who) && Run(p, steps).Some?
    ensures Bounded(Run(p, steps).value) && Budget(Run(p, steps).value, who)
    decreases steps
  {
    hide Bounded, Budget;
    if steps != [] {
      StepKeepsBounded(p, steps[0]);
      StepKeepsBudget(p, steps[0], who);
      RunKeepsBudget(Apply(p, steps[0]), steps[1..], who);
    }
  }

  ghost function Idle(workers: nat): Pool { Pool([], seq(workers, _ => None), [], []) }

  lemma {:induction false} NothingLeft(b: seq<Option<SyncTask>>, who: Option<nat>, spent: int)
    requires forall w :: 0 <= w < |b| ==> b[w].None?
    ensures BusyLeft(b, who, spent) == 0
  {
    if b != [] {
      NothingLeft(b[..|b| - 1], who, spent);
    }
  }

  lemma {:induction false} LeftIsPositive(p: Pool, who: Option<nat>, n: nat, m: nat)
    requires Bounded(p) && n <= |p.queue| && m <= |p.busy|
    ensures QueueLeft(p.queue[..n], who) >= 0 && BusyLeft(p.busy[..m], who, 1) >= 0
  {
    if n > 0 {
      LeftIsPositive(p, who, n - 1, 0);
      assert p.queue[..n][..n - 1] == p.queue[..n - 1] && p.queue[n - 1] in p.queue;
    }
    if m > 0 {
      LeftIsPositive(p, who, 0, m - 1);
      assert p.busy[..m][..m - 1] == p.busy[..m - 1];
    }
  }

  /**
   * With any number of workers and any interleaving, the attempts begun are at most four times the
   * scheduler's accepted pushes, in total and for each event separately.
   */
  lemma AttemptsAreBounded(workers: nat, steps: seq<Step>, who: Option<nat>)
    requires Run(Idle(workers), steps).Some?
    ensures var p := Run(Idle(workers), steps).value;
      Count(p.attempts, who) <= MAX_ATTEMPTS * Count(p.pushes, who)
  {
    NothingLeft(Idle(workers).busy, who, 1);
    RunKeepsBudget(Idle(workers), steps, who);
    var p := Run(Idle(workers), steps).value;
    LeftIsPositive(p, who, |p.queue|, |p.busy|);
    assert p.queue[..|p.queue|] == p.queue && p.busy[..|p.busy|] == p.busy;
  }

  /** A single event pushed once is attempted at most four times. */
  lemma FourAttempts(workers: nat, steps: seq<Step>, arrival: nat)
    requires Run(Idle(workers), steps).Some? && Count(Run(Idle(workers), steps).value.pushes, Some(arrival)) == 1
    ensures Count(Run(Idle(workers), steps).value.attempts, Some(arrival)) <= 4
  {
    AttemptsAreBounded(workers, steps, Some(arrival));
  }

  /** Every attempt of the tasks counted fails, and the queue takes them back. */
  ghost predicate AlwaysFails(p: Pool, steps: seq<Step>, who: Option<nat>)
    decreases steps
  {
    steps != [] && Enabled(p, steps[0]) ==>
      && (steps[0].Finish? && Matches(p.busy[steps[0].worker].value, who) ==> !steps[0].success && steps[0].accepted)
      && AlwaysFails(Apply(p, steps[0]), steps[1..], who)
  }

  lemma StepSpendsBudget(p: Pool, step: Step, who: Option<nat>)
    requires Bounded(p) && Enabled(p, step) && AlwaysFails(p, [step], who)
    ensures var q := Apply(p, step);
      Count(q.attempts, who) + QueueLeft(q.queue, who) + BusyLeft(q.busy, who, 1) - 4 * Count(q.pushes, who) ==
      Count(p.attempts, who) + QueueLeft(p.queue, who) + BusyLeft(p.busy, who, 1) - 4 * Count(p.pushes, who)
  {
    match step {
      case Push(t) =>
        AddOne(p.queue, t, who);
        AddOne(p.pushes, t, who);
      case Pop(w) =>
        QueueLeftFront(p.queue, who);
        BusyLeftUpdate(p.busy, w, Some(p.queue[0]), who, 1);
        AddOne(p.attempts, p.queue[0], who);
      case Finish(w, _, _) =>
        assert p.queue + [] == p.queue;
        BusyLeftUpdate(p.busy, w, None, who, 1);
        AddOne(p.queue, p.busy[w].value.(retryCount := p.busy[w].value.retryCount + 1), who);
    }
  }

  lemma {:induction false} RunSpendsBudget(p: Pool, steps: seq<Step>, who: Option<nat>)
    requires Bounded(p) && Run(p, steps).Some? && AlwaysFails(p, steps, who)
    ensures var q := Run(p, steps).value;
      Count(q.attempts, who) + QueueLeft(q.queue, who) + BusyLeft(q.busy, who, 1) - 4 * Count(q.pushes, who) ==
      Count(p.attempts, who) + QueueLeft(p.queue, who) + BusyLeft(p.busy, who, 1) - 4 * Count(p.pushes, who)
    decreases steps
  {
    if steps != [] {
      hide Bounded;
      assert AlwaysFails(p, [steps[0]], who);
      StepKeepsBounded(p, steps[0]);
      StepSpendsBudget(p, steps[0], who);
      RunSpendsBudget(Apply(p, steps[0]), steps[1..], who);
    }
  }

  lemma {:induction false} NoneQueued(s: seq<SyncTask>, who: Option<nat>)
    requires forall t :: t in s ==> !Matches(t, who)
    ensures QueueLeft(s, who) == 0
  {
    if s != [] {
      NoneQueued(s[..|s| - 1], who);
    }
  }

  lemma {:induction false} NoneBusy(b: seq<Option<SyncTask>>, who: Option<nat>)
    requires forall w :: 0 <= w < |b| && b[w].Some? ==> !Matches(b[w].value, who)
    ensures BusyLeft(b, who, 1) == 0
  {
    if b != [] {
      NoneBusy(b[..|b| - 1], who);
    }
  }

  /**
   * An event whose attempts all fail and whose task the queue always takes back is attempted exactly
   * four times per push before it is given up, that is, before it is neither queued nor worked on.
   */
  lemma GivenUpAfterFour(workers: nat, steps: seq<Step>, arrival: nat)
    requires Run(Idle(workers), steps).Some? && AlwaysFails(Idle(workers), steps, Some(arrival))
    requires var p := Run(Idle(workers), steps).value;
      && (forall t :: t in p.queue ==> t.arrival != arrival)
      && (forall w :: 0 <= w < |p.busy| && p.busy[w].Some? ==> p.busy[w].value.arrival != arrival)
    ensures var p := Run(Idle(workers), steps).value;
      Count(p.attempts, Some(arrival)) == 4 * Count(p.pushes, Some(arrival))
  {
    var p := Run(Idle(workers), steps).value;
    NothingLeft(Idle(workers).busy, Some(arrival), 1);
    RunSpendsBudget(Idle(workers), steps, Some(arrival));
    NoneQueued(p.queue, Some(arrival));
    NoneBusy(p.busy, Some(arrival));
  }

  ghost function Running(b: seq<Option<SyncTask>>, who: Option<nat>): nat {
    if b == [] then 0
    else Running(b[..|b| - 1], who) + if b[|b| - 1].Some? && Matches(b[|b| - 1].value, who) then 1 else 0
  }

  lemma {:induction false} RunningUpdate(b: seq<Option<SyncTask>>, w: nat, x: Option<SyncTask>, who: Option<nat>)
    requires w < |b|
    ensures Running(b[w := x], who) + (if b[w].Some? && Matches(b[w].value, who) then 1 else 0) ==
      Running(b, who) + if x.Some? && Matches(x.value, who) then 1 else 0
  {
    if w < |b| - 1 {
      RunningUpdate(b[..|b| - 1], w, x, who);
      assert b[w := x][..|b| - 1] == b[..|b| - 1][w := x];
    } else {
      assert b[w := x][..|b| - 1] == b[..|b| - 1];
    }
  }

  /** Whether the step is through with a task: it succeeded, had its fourth attempt, or the queue refused it. */
  ghost predicate Settles(p: Pool, step: Step, who: Option<nat>)
    requires Enabled(p, step)
  {
    step.Finish? && Matches(p.busy[step.worker].value, who) &&
    (step.success || !step.accepted || p.busy[step.worker].value.retryCount >= 3)
  }

  /** How many tasks a run is through with. */
  ghost function Settled(p: Pool, steps: seq<Step>, who: Option<nat>): nat
    decreases steps
  {
    if steps == [] || !Enabled(p, steps[0]) then 0
    else Settled(Apply(p, steps[0]), steps[1..], who) + if Settles(p, steps[0], who) then 1 else 0
  }

  lemma {:induction false} CountFront(s: seq<SyncTask>, who: Option<nat>)
    requires s != []
    ensures Count(s, who) == Count(s[1..], who) + if Matches(s[0], who) then 1 else 0
  {
    if |s| > 1 {
      CountFront(s[..|s| - 1], who);
      assert s[..|s| - 1][1..] == s[1..][..|s[1..]| - 1];
    }
  }

  lemma StepAccounted(p: Pool, step: Step, who: Option<nat>)
    requires Enabled(p, step)
    ensures var q := Apply(p, step);
      Count(q.queue, who) + Running(q.busy, who) + (if Settles(p, step, who) then 1 else 0) - Count(q.pushes, who) ==
      Count(p.queue, who) + Running(p.busy, who) - Count(p.pushes, who)
  {
    hide Count, Running, QueueLeft;
    match step {
      case Push(t) =>
        AddOne(p.queue, t, who);
        AddOne(p.pushes, t, who);
      case Pop(w) =>
        CountFront(p.queue, who);
        RunningUpdate(p.busy, w, Some(p.queue[0]), who);
      case Finish(w, _, _) =>
        assert p.queue + [] == p.queue;
        RunningUpdate(p.busy, w, None, who);
        AddOne(p.queue, p.busy[w].value.(retryCount := p.busy[w].value.retryCount + 1), who);
    }
  }

  /**
   * Conservation: each accepted push is queued, being worked on, or settled, and nothing else is; so
   * a task that succeeds is never attempted again, and one that fails is until its fourth attempt.
   */
  lemma {:induction false} PushesAccounted(p: Pool, steps: seq<Step>, who: Option<nat>)
    requires Run(p, steps).Some?
    ensures var q := Run(p, steps).value;
      Count(q.queue, who) + Running(q.busy, who) + Settled(p, steps, who) - Count(q.pushes, who) ==
      Count(p.queue, who) + Running(p.busy, who) - Count(p.pushes, who)
    decreases steps
  {
    hide Count, Running, Apply, Enabled, Settles;
    if steps != [] {
      StepAccounted(p, steps[0], who);
      PushesAccounted(Apply(p, steps[0]), steps[1..], who);
    }
  }

  lemma {:induction false} NothingRuns(b: seq<Option<SyncTask>>, who: Option<nat>)
    requires forall w :: 0 <= w < |b| ==> b[w].None?
    ensures Running(b, who) == 0
  {
    if b != [] {
      NothingRuns(b[..|b| - 1], who);
    }
  }

  /** So over a whole run, in total and for each event. */
  lemma RunAccounted(workers: nat, steps: seq<Step>, who: Option<nat>)
    requires Run(Idle(workers), steps).Some?
    ensures var p := Run(Idle(workers), steps).value;
      Count(p.queue, who) + Running(p.busy, who) + Settled(Idle(workers), steps, who) == Count(p.pushes, who)
  {
    NothingRuns(Idle(workers).busy, who);
    PushesAccounted(Idle(workers), steps, who);
  }

  /** The attempts left over all queued and running tasks, running attempts included. */
  ghost function Measure(p: Pool): int { QueueLeft(p.queue, None) + BusyLeft(p.busy, None, 0) }

  /** Once the scheduler pushes no more, the measure never grows and falls with every finished attempt. */
  lemma MeasureFalls(p: Pool, step: Step)
    requires Bounded(p) && Enabled(p, step) && !step.Push?
    ensures Measure(Apply(p, step)) <= Measure(p)
    ensures step.Finish? ==> Measure(Apply(p, step)) < Measure(p)
  {
    hide QueueLeft, BusyLeft;
    match step {
      case Pop(w) =>
        QueueLeftFront(p.queue, None);
        BusyLeftUpdate(p.busy, w, Some(p.queue[0]), None, 0);
      case Finish(w, _, _) =>
        assert p.queue + [] == p.queue;
        BusyLeftUpdate(p.busy, w, None, None, 0);
        AddOne(p.queue, p.busy[w].value.(retryCount := p.busy[w].value.retryCount + 1), None);
    }
  }
}
