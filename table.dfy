/** The scheduling table seen as a value: one ready queue per CPU, indexed
    by CPU number. The per-CPU area and the exported calls are specified
    against the functions here, and the lemmas here state what any
    sequence of those calls does to the queues. */
module Table {
  import opened Tasks
  import Fifo

  type Queues = seq<Fifo.Queue>

  /** Every one of `n` CPUs with an empty ready queue (the state `init` leaves). */
  function Empty(n: nat): (qs: Queues)
    ensures |qs| == n && forall i :: 0 <= i < n ==> qs[i] == []
  {
    seq(n, _ => [])
  }

  /** The index `min_by_key(|p| p.ready_queue.len())` settles on while it
      scans the records in index order, replacing its candidate only on a
      strictly shorter queue. */
  function FirstMin(qs: Queues): (k: nat)
    requires |qs| >= 1
    ensures k < |qs|
    ensures forall i :: 0 <= i < |qs| ==> |qs[k]| <= |qs[i]|
    ensures forall i :: 0 <= i < k ==> |qs[k]| < |qs[i]|
  {
    if |qs| == 1 then 0
    else
      var k := FirstMin(qs[..|qs| - 1]);
      if |qs[|qs| - 1]| < |qs[k]| then |qs| - 1 else k
  }

  /** The two properties of FirstMin pin the index down: any index of a
      shortest queue with no shortest queue before it is FirstMin. */
  lemma FirstMinUnique(qs: Queues, k: nat)
    requires k < |qs|
    requires forall i :: 0 <= i < |qs| ==> |qs[k]| <= |qs[i]|
    requires forall i :: 0 <= i < k ==> |qs[k]| < |qs[i]|
    ensures FirstMin(qs) == k
  {
  }

  /** A push onto CPU `i`'s queue. */
  function PushAt(qs: Queues, i: nat, t: TaskId): (r: Queues)
    requires i < |qs|
    ensures |r| == |qs| && r[i] == qs[i] + [t]
    ensures forall j :: 0 <= j < |qs| && j != i ==> r[j] == qs[j]
  {
    qs[i := Fifo.Push(qs[i], t)]
  }

  /** A `pick_next_task` on CPU `i`: the task returned and the new table. */
  function PickAt(qs: Queues, i: nat): (r: (TaskId, Queues))
    requires i < |qs|
    ensures |r.1| == |qs|
    ensures qs[i] == [] ==> r.0 == NULL && r.1 == qs
    ensures qs[i] != [] ==> r.0 == qs[i][0] && r.1[i] == qs[i][1..]
    ensures forall j :: 0 <= j < |qs| && j != i ==> r.1[j] == qs[j]
  {
    var (o, rest) := Fifo.Pop(qs[i]);
    (OrNull(o), qs[i := rest])
  }

  /** `first_add_task`: a push onto the first shortest queue. */
  function FirstAdd(qs: Queues, t: TaskId): (r: Queues)
    requires |qs| >= 1
  {
    PushAt(qs, FirstMin(qs), t)
  }

  /** The number of tasks queued over all CPUs. */
  function Total(qs: Queues): (n: nat)
  {
    if qs == [] then 0 else |qs[0]| + Total(qs[1..])
  }

  /** A push anywhere adds exactly one task to the total. */
  lemma {:induction false} TotalPushAt(qs: Queues, i: nat, t: TaskId)
    requires i < |qs|
    ensures Total(PushAt(qs, i, t)) == Total(qs) + 1
  {
    var r := PushAt(qs, i, t);
    if i > 0 {
      assert r[1..] == PushAt(qs[1..], i - 1, t);
      TotalPushAt(qs[1..], i - 1, t);
    } else {
      assert r[1..] == qs[1..];
    }
  }

  /** `first_add_task` appends the task to the first shortest queue, leaves
      every other queue as it was, and grows the total by exactly one. */
  lemma FirstAddPlacement(qs: Queues, t: TaskId)
    requires |qs| >= 1
    ensures var k := FirstMin(qs); var r := FirstAdd(qs, t);
      |r| == |qs| && r[k] == qs[k] + [t]
      && (forall j :: 0 <= j < |qs| && j != k ==> r[j] == qs[j])
      && (forall i :: 0 <= i < |qs| ==> |qs[k]| <= |qs[i]|)
      && (forall i :: 0 <= i < k ==> |qs[k]| < |qs[i]|)
      && Total(r) == Total(qs) + 1
  {
    TotalPushAt(qs, FirstMin(qs), t);
  }

  /** One call of the exported surface, as it bears on the ready queues. */
  datatype Call =
    | AddTask(cpu: nat, task: TaskId)
    | PutPrevTask(cpu: nat, task: TaskId, front: bool)
    | PickNextTask(cpu: nat)
    | FirstAddTask(task: TaskId)

  /** The call can be made on a table of `n` CPUs: there is at least one
      CPU, and the calling CPU is one of them. */
  predicate Callable(n: nat, c: Call)
  {
    n >= 1 && (!c.FirstAddTask? ==> c.cpu < n)
  }

  /** The effect of one call: the task it returns (NULL for the calls that
      return nothing) and the new table. */
  function Step(qs: Queues, c: Call): (r: (TaskId, Queues))
    requires Callable(|qs|, c)
    ensures |r.1| == |qs|
  {
    match c
    case AddTask(cpu, t) => (NULL, PushAt(qs, cpu, t))
    case PutPrevTask(cpu, t, _) => (NULL, PushAt(qs, cpu, t))
    case PickNextTask(cpu) => PickAt(qs, cpu)
    case FirstAddTask(t) => (NULL, FirstAdd(qs, t))
  }

  /** `put_prev_task` ignores its `front` hint: with either value it does
      exactly what `add_task` does. */
  lemma PutPrevIgnoresFront(qs: Queues, cpu: nat, t: TaskId, front: bool)
    requires cpu < |qs|
    ensures Step(qs, PutPrevTask(cpu, t, front)) == Step(qs, PutPrevTask(cpu, t, !front))
    ensures Step(qs, PutPrevTask(cpu, t, front)) == Step(qs, AddTask(cpu, t))
    ensures Step(qs, PutPrevTask(cpu, t, front)).1[cpu] == qs[cpu] + [t]
  {
  }

  /** The task a call places on CPU `j`'s queue, if any. */
  function PushedOn(qs: Queues, c: Call, j: nat): (ts: seq<TaskId>)
    requires Callable(|qs|, c)
  {
    match c
    case AddTask(cpu, t) => if cpu == j then [t] else []
    case PutPrevTask(cpu, t, _) => if cpu == j then [t] else []
    case PickNextTask(_) => []
    case FirstAddTask(t) => if FirstMin(qs) == j then [t] else []
  }

  /** The task a call removes from CPU `j`'s queue, if any. */
  function PoppedFrom(qs: Queues, c: Call, j: nat): (ts: seq<TaskId>)
    requires Callable(|qs|, c) && j < |qs|
  {
    if c.PickNextTask? && c.cpu == j && qs[j] != [] then [qs[j][0]] else []
  }

  predicate AllCallable(n: nat, calls: seq<Call>)
  {
    forall i :: 0 <= i < |calls| ==> Callable(n, calls[i])
  }

  /** The table after a sequence of calls. */
  function Run(qs: Queues, calls: seq<Call>): (r: Queues)
    requires AllCallable(|qs|, calls)
    ensures |r| == |qs|
    decreases |calls|
  {
    if calls == [] then qs else Run(Step(qs, calls[0]).1, calls[1..])
  }

  /** Every task pushed onto CPU `j`'s queue during the calls, in order. */
  function Pushed(qs: Queues, calls: seq<Call>, j: nat): (ts: seq<TaskId>)
    requires AllCallable(|qs|, calls)
    decreases |calls|
  {
    if calls == [] then []
    else PushedOn(qs, calls[0], j) + Pushed(Step(qs, calls[0]).1, calls[1..], j)
  }

  /** Every task taken off CPU `j`'s queue during the calls, in order. */
  function Popped(qs: Queues, calls: seq<Call>, j: nat): (ts: seq<TaskId>)
    requires AllCallable(|qs|, calls) && j < |qs|
    decreases |calls|
  {
    if calls == [] then []
    else PoppedFrom(qs, calls[0], j) + Popped(Step(qs, calls[0]).1, calls[1..], j)
  }

  /** One call: what CPU `j` held, followed by what the call pushed there,
      is what the call popped there followed by what `j` holds now. */
  lemma StepHistory(qs: Queues, c: Call, j: nat)
    requires Callable(|qs|, c) && j < |qs|
    ensures qs[j] + PushedOn(qs, c, j) == PoppedFrom(qs, c, j) + Step(qs, c).1[j]
    ensures c.PickNextTask? && c.cpu == j ==>
      Step(qs, c).0 == (if qs[j] == [] then NULL else PoppedFrom(qs, c, j)[0])
  {
    if c.PickNextTask? && c.cpu == j && qs[j] != [] {
      assert qs[j] == [qs[j][0]] + qs[j][1..];
    }
  }

  /** Queue history over any sequence of calls: for every CPU `j`, the tasks
      it held at the start followed by every task placed on it equal every
      task taken off it followed by what it holds at the end. So each CPU's
      queue is FIFO, and it only ever hands out tasks that were on it or
      were placed on it. */
  lemma {:induction false} QueueHistory(qs: Queues, calls: seq<Call>, j: nat)
    requires AllCallable(|qs|, calls) && j < |qs|
    ensures qs[j] + Pushed(qs, calls, j) == Popped(qs, calls, j) + Run(qs, calls)[j]
    decreases |calls|
  {
    if calls != [] {
      var next := Step(qs, calls[0]).1;
      assert AllCallable(|next|, calls[1..]);
      StepHistory(qs, calls[0], j);
      QueueHistory(next, calls[1..], j);
      ConcatShuffle(qs[j], PushedOn(qs, calls[0], j), Pushed(next, calls[1..], j),
        PoppedFrom(qs, calls[0], j), next[j], Popped(next, calls[1..], j), Run(next, calls[1..])[j]);
    }
  }

  /** Rearranging two history equations into one. */
  lemma ConcatShuffle(a: seq<TaskId>, p1: seq<TaskId>, p2: seq<TaskId>,
                      o1: seq<TaskId>, mid: seq<TaskId>, o2: seq<TaskId>, f: seq<TaskId>)
    requires a + p1 == o1 + mid
    requires mid + p2 == o2 + f
    ensures a + (p1 + p2) == (o1 + o2) + f
  {
    assert a + (p1 + p2) == (a + p1) + p2;
    assert (o1 + mid) + p2 == o1 + (mid + p2);
    assert o1 + (o2 + f) == (o1 + o2) + f;
  }

  /** Queue isolation: a task that was not on CPU `j`'s queue and was never
      placed there is never taken off it, whatever happens on other CPUs. */
  lemma Isolation(qs: Queues, calls: seq<Call>, j: nat, t: TaskId)
    requires AllCallable(|qs|, calls) && j < |qs|
    requires t !in qs[j] && t !in Pushed(qs, calls, j)
    ensures t !in Popped(qs, calls, j)
  {
    QueueHistory(qs, calls, j);
    if t in Popped(qs, calls, j) {
      assert t in qs[j] + Pushed(qs, calls, j);
      assert false;
    }
  }

  /** What a pick returns over a run: at any point of the calls, a pick on
      CPU `j` returns NULL exactly when every task that was on `j` or was
      placed there has been taken off, and otherwise the oldest of them not
      yet taken off. */
  lemma PickReturnsNext(qs: Queues, calls: seq<Call>, k: nat)
    requires AllCallable(|qs|, calls) && k < |calls| && calls[k].PickNextTask?
    ensures AllCallable(|qs|, calls[..k])
    ensures var j := calls[k].cpu; var s := Run(qs, calls[..k]);
      var placed := qs[j] + Pushed(qs, calls[..k], j);
      var taken := Popped(qs, calls[..k], j);
      |taken| <= |placed|
      && (s[j] == [] <==> |taken| == |placed|)
      && (s[j] == [] ==> Step(s, calls[k]).0 == NULL)
      && (s[j] != [] ==> Step(s, calls[k]).0 == placed[|taken|])
  {
    var before := calls[..k];
    assert forall i :: 0 <= i < k ==> before[i] == calls[i];
    var j := calls[k].cpu;
    QueueHistory(qs, before, j);
    var s := Run(qs, before);
    var placed := qs[j] + Pushed(qs, before, j);
    var taken := Popped(qs, before, j);
    assert placed == taken + s[j];
    if s[j] != [] {
      assert placed[|taken|] == s[j][0];
    }
  }

  /** Queue isolation in terms of what picks return: a pick on CPU `j`
      never returns a task that was not on `j` and was not placed there
      before the pick, unless it returns NULL on an empty queue. */
  lemma PickIsolation(qs: Queues, calls: seq<Call>, k: nat, t: TaskId)
    requires AllCallable(|qs|, calls) && k < |calls| && calls[k].PickNextTask?
    requires t !in qs[calls[k].cpu] + Pushed(qs, calls[..k], calls[k].cpu)
    ensures var s := Run(qs, calls[..k]);
      s[calls[k].cpu] == [] || Step(s, calls[k]).0 != t
  {
    PickReturnsNext(qs, calls, k);
  }

  /** Two CPUs, both queues empty: three `first_add_task` calls place their
      tasks on CPU 0 (tie), CPU 1 (shorter), then CPU 0 again (tie). */
  lemma TwoCpuPlacement(a: TaskId, b: TaskId, c: TaskId)
    ensures FirstMin(Empty(2)) == 0
    ensures FirstMin(FirstAdd(Empty(2), a)) == 1
    ensures FirstMin(FirstAdd(FirstAdd(Empty(2), a), b)) == 0
    ensures FirstAdd(FirstAdd(FirstAdd(Empty(2), a), b), c) == [[a, c], [b]]
  {
    var q0 := Empty(2);
    FirstMinUnique(q0, 0);
    var q1 := FirstAdd(q0, a);
    assert q1 == [[a], []];
    FirstMinUnique(q1, 1);
    var q2 := FirstAdd(q1, b);
    assert q2 == [[a], [b]];
    FirstMinUnique(q2, 0);
    assert FirstAdd(q2, c) == PushAt(q2, 0, c);
    assert [a] + [c] == [a, c];
  }
}
