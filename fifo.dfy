/** A CPU's ready queue, seen sequentially: the lock-free queue becomes the
    sequence of the tasks it holds, oldest first. */
module Fifo {
  import opened Tasks

  type Queue = seq<TaskId>

  /** `LockFreeQueue::push`: the task joins at the back. */
  function Push(q: Queue, t: TaskId): (r: Queue)
    ensures |r| == |q| + 1 && r[|q|] == t && r[..|q|] == q
  {
    q + [t]
  }

  /** `LockFreeQueue::pop`: the oldest task and the queue without it, or
      nothing when the queue is empty. */
  function Pop(q: Queue): (r: (Option<TaskId>, Queue))
    ensures q == [] <==> r.0 == None
    ensures q == [] ==> r.1 == []
    ensures q != [] ==> q == [r.0.value] + r.1
  {
    if q == [] then (None, []) else (Some(q[0]), q[1..])
  }

  /** A run of `add_task` calls, one per element of `ts`, in order. */
  function PushAll(q: Queue, ts: seq<TaskId>): (r: Queue)
    decreases |ts|
  {
    if ts == [] then q else PushAll(Push(q, ts[0]), ts[1..])
  }

  /** `n` successive `pick_next_task` calls in the NULL-returning form: the
      tasks they return, in order, and the queue they leave. */
  function PickN(q: Queue, n: nat): (r: (seq<TaskId>, Queue))
  {
    if n == 0 then ([], q)
    else
      var (o, rest) := Pop(q);
      var (outs, left) := PickN(rest, n - 1);
      ([OrNull(o)] + outs, left)
  }

  /** Pushing a run of tasks appends exactly that run, in order. */
  lemma {:induction false} PushAllAppends(q: Queue, ts: seq<TaskId>)
    ensures PushAll(q, ts) == q + ts
    decreases |ts|
  {
    if ts != [] {
      PushAllAppends(Push(q, ts[0]), ts[1..]);
      assert q + [ts[0]] + ts[1..] == q + ts;
    }
  }

  /** FIFO: the first `n` picks return the `n` oldest tasks, oldest first,
      and leave exactly the rest queued. */
  lemma {:induction false} PickNTakesOldest(q: Queue, n: nat)
    requires n <= |q|
    ensures PickN(q, n) == (q[..n], q[n..])
  {
    if n > 0 {
      PickNTakesOldest(q[1..], n - 1);
      assert [q[0]] + q[1..][..n - 1] == q[..n];
      assert q[1..][n - 1..] == q[n..];
    }
  }

  /** Once every queued task has been picked, one more pick returns NULL
      and the queue stays empty. */
  lemma {:induction false} PickNDrains(q: Queue)
    ensures PickN(q, |q| + 1) == (q + [NULL], [])
  {
    if q == [] {
      assert Pop(q) == (None, []);
      assert PickN(q, 1) == ([NULL] + PickN([], 0).0, PickN([], 0).1);
      assert q + [NULL] == [NULL] + [];
    } else {
      PickNDrains(q[1..]);
      assert Pop(q) == (Some(q[0]), q[1..]);
      assert PickN(q, |q| + 1) == ([q[0]] + PickN(q[1..], |q[1..]| + 1).0, PickN(q[1..], |q[1..]| + 1).1);
      assert [q[0]] + (q[1..] + [NULL]) == q + [NULL];
    }
  }

  /** A single core, queue initially empty: `add_task` of each of `ts` then
      |ts| + 1 picks return every task once, in the order added, then NULL. */
  lemma DrainInOrder(ts: seq<TaskId>)
    ensures PickN(PushAll([], ts), |ts| + 1) == (ts + [NULL], [])
  {
    PushAllAppends([], ts);
    assert [] + ts == ts;
    PickNDrains(ts);
  }
}
