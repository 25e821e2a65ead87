/** The task queue of src/task_queue.c as a linked list. */
module Queue {
  import opened Bytes
  import opened Tasks

  // ---- Conservation -----------------------------------------------------------------------------------

  /** What was accepted is what was popped, then what was freed, then what is queued. */
  ghost predicate Balanced<T>(accepted: seq<T>, popped: seq<T>, freed: seq<T>, queued: seq<T>) {
    accepted == popped + freed + queued && (freed != [] ==> queued == [])
  }

  lemma PushBalances<T>(accepted: seq<T>, popped: seq<T>, queued: seq<T>, t: T)
    requires Balanced(accepted, popped, [], queued)
    ensures Balanced(accepted + [t], popped, [], queued + [t])
  {
  }

  lemma PopBalances<T>(accepted: seq<T>, popped: seq<T>, freed: seq<T>, queued: seq<T>)
    requires Balanced(accepted, popped, freed, queued) && queued != []
    ensures Balanced(accepted, popped + [queued[0]], freed, queued[1..])
  {
  }

  lemma FreeBalances<T>(accepted: seq<T>, popped: seq<T>, queued: seq<T>)
    requires Balanced(accepted, popped, [], queued)
    ensures Balanced(accepted, popped, queued, [])
  {
  }

  // ---- The list ---------------------------------------------------------------------------------------

  class TaskNode {
    var task: SyncTask
    var next: TaskNode?

    constructor (task: SyncTask)
      ensures this.task == task && next == null
    {
      this.task, this.next := task, null;
    }
  }

  datatype PopResult = Popped(task: SyncTask) | Drained | MustWait

  class TaskQueue {
    var front: TaskNode?
    var rear: TaskNode?
    var size: int
    var stopped: bool
    /** The chain from front to rear, and the tasks in it. */
    ghost var nodes: seq<TaskNode>
    ghost var queued: seq<SyncTask>
    ghost var Repr: set<object>
    /** Every task ever accepted, popped or freed, in order. */
    ghost var accepted: seq<SyncTask>
    ghost var popped: seq<SyncTask>
    ghost var freed: seq<SyncTask>

    ghost predicate Valid()
      reads this, Repr
      ensures Valid() ==> this in Repr
    {
      Linked() && Balanced(accepted, popped, freed, queued)
    }

    /** front, rear, size and next represent one acyclic chain. */
    ghost predicate Linked()
      reads this, Repr
      ensures Linked() ==> this in Repr
    {
      && this in Repr && (forall i :: 0 <= i < |nodes| ==> nodes[i] in Repr)
      && size == |nodes| == |queued|
      && (forall i, j :: 0 <= i < j < |nodes| ==> nodes[i] != nodes[j])
      && (forall i :: 0 <= i < |nodes| ==> nodes[i].task == queued[i])
      && (forall i, j :: 0 <= i < |nodes| && j == i + 1 < |nodes| ==> nodes[i].next == nodes[j])
      && (nodes != [] ==> nodes[|nodes| - 1].next == null)
      && front == (if nodes == [] then null else nodes[0])
      && rear == (if nodes == [] then null else nodes[|nodes| - 1])
    }

    ghost function Contents(): seq<SyncTask>
      reads this
    {
      queued
    }

    /** task_queue_init. */
    constructor ()
      ensures Valid() && fresh(Repr) && Contents() == [] && !stopped
      ensures accepted == popped == freed == []
    {
      front, rear, size, stopped := null, null, 0, false;
      nodes, queued, accepted, popped, freed := [], [], [], [], [];
      Repr := {this};
    }

    /** Puts a node behind the last one. */
    method Link(node: TaskNode)
      requires Linked() && node !in Repr && node.next == null
      modifies Repr
      ensures Linked() && Repr == old(Repr) + {node}
      ensures queued == old(queued) + [node.task]
      ensures unchanged(`accepted) && unchanged(`popped) && unchanged(`freed) && unchanged(`stopped)
    {
      if rear != null {
        rear.next := node;
      } else {
        front := node;
      }
      rear := node;
      size := size + 1;
      nodes, queued := nodes + [node], queued + [node.task];
      Repr := Repr + {node};
    }

    /** task_queue_push; `memory` is whether calloc finds memory. */
    method Push(task: SyncTask, memory: bool) returns (ok: bool)
      requires Valid() && freed == []
      modifies Repr
      ensures Valid() && fresh(Repr - old(Repr))
      ensures ok <==> memory && !old(stopped)
      ensures Contents() == if ok then old(Contents()) + [task] else old(Contents())
      ensures accepted == if ok then old(accepted) + [task] else old(accepted)
      ensures unchanged(`popped) && unchanged(`freed) && unchanged(`stopped)
    {
      hide Balanced;
      if !memory {
        return false;
      }
      var node := new TaskNode(task);
      if stopped {
        return false;
      }
      PushBalances(accepted, popped, queued, task);
      Link(node);
      accepted := accepted + [task];
      return true;
    }

    /** task_queue_pop up to the point where it would sleep. */
    method Pop() returns (r: PopResult)
      requires Valid()
      modifies this
      ensures Valid() && Repr == old(Repr)
      ensures old(Contents()) == [] ==> r == (if stopped then Drained else MustWait) && Contents() == []
      ensures old(Contents()) != [] ==> r == Popped(old(Contents())[0]) && Contents() == old(Contents())[1..]
      ensures popped == if r.Popped? then old(popped) + [r.task] else old(popped)
      ensures unchanged(`accepted) && unchanged(`freed) && unchanged(`stopped)
    {
      hide Balanced;
      if size == 0 && !stopped {
        return MustWait;
      }
      if size == 0 && stopped {
        return Drained;
      }
      PopBalances(accepted, popped, freed, queued);
      var node := front;
      ghost var chain := nodes;
      assert node == chain[0] && (|chain| > 1 ==> node.next == chain[1]);
      front := node.next;
      if front == null {
        rear := null;
      }
      size := size - 1;
      popped := popped + [node.task];
      nodes, queued := nodes[1..], queued[1..];
      assert forall i :: 0 <= i < |nodes| ==> nodes[i] == chain[i + 1];
      return Popped(node.task);
    }

    /** task_queue_stop. */
    method Stop()
      requires Valid()
      modifies this`stopped
      ensures Valid() && stopped && Contents() == old(Contents()) && Repr == old(Repr)
    {
      stopped := true;
    }

    /** task_queue_destroy; `released` lists the tasks of the freed nodes. */
    method Destroy() returns (released: seq<SyncTask>)
      requires Valid() && freed == []
      modifies this
      ensures Valid() && Repr == old(Repr) && Contents() == [] && front == null && rear == null && size == 0
      ensures released == old(Contents()) == freed
      ensures unchanged(`accepted) && unchanged(`popped)
    {
      hide Balanced;
      released := [];
      var node := front;
      while node != null
        invariant |released| <= |nodes|
        invariant node == if |released| == |nodes| then null else nodes[|released|]
        invariant forall i :: 0 <= i < |released| ==> released[i] == queued[i]
        decreases |nodes| - |released|
      {
        var next := node.next;
        released := released + [node.task];
        node := next;
      }
      SamePointwise(released, queued);
      FreeBalances(accepted, popped, queued);
      front, rear, size := null, null, 0;
      freed := released;
      nodes, queued := [], [];
    }
  }

  /**
   * Every accepted task is exactly one of popped, still queued and freed, and it was popped in the
   * order in which it was accepted.
   */
  lemma AcceptedOnce(q: TaskQueue, i: nat)
    requires q.Valid() && i < |q.accepted|
    ensures i < |q.popped| ==> q.accepted[i] == q.popped[i]
    ensures |q.popped| <= i < |q.popped| + |q.freed| ==> q.accepted[i] == q.freed[i - |q.popped|]
    ensures |q.popped| + |q.freed| <= i ==> q.accepted[i] == q.Contents()[i - |q.popped| - |q.freed|]
    ensures |q.accepted| == |q.popped| + |q.freed| + |q.Contents()|
  {
  }
}
