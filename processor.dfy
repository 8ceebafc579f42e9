/** An alternate revision of the per-CPU record (`Processor`): the same queue
    and current-task slot, an opaque scheduler pointer, and `Option`
    results in place of NULL. Its selection scans a table of `Processor`
    records. */
module Processors {
  import opened Tasks
  import Fifo
  import Table

  class Processor {
    var readyQueue: Fifo.Queue
    var currentTask: Option<TaskId>
    /** The kernel scheduler (or its wrapper) this CPU delegates to; 0 is unset. */
    var schedulerPtr: nat

    /** `Processor::new`: an empty queue, no current task, no scheduler. */
    constructor ()
      ensures readyQueue == [] && currentTask == None && schedulerPtr == 0
    {
      readyQueue := [];
      currentTask := None;
      schedulerPtr := 0;
    }

    /** `get_scheduler_ptr`: the pointer last stored. */
    method GetSchedulerPtr() returns (p: nat)
      ensures p == schedulerPtr
    {
      p := schedulerPtr;
    }

    /** `set_scheduler_ptr`: stores the pointer; queue and current task stay. */
    method SetSchedulerPtr(p: nat)
      modifies this`schedulerPtr
      ensures schedulerPtr == p
    {
      schedulerPtr := p;
    }

    /** `pick_next_task`: `Some` of the oldest queued task, which leaves the
        queue, or `None` on an empty queue. */
    method PickNextTask() returns (t: Option<TaskId>)
      modifies this`readyQueue
      ensures old(readyQueue) == [] ==> t == None && readyQueue == []
      ensures old(readyQueue) != [] ==> t == Some(old(readyQueue)[0]) && readyQueue == old(readyQueue)[1..]
    {
      var (o, rest) := Fifo.Pop(readyQueue);
      t, readyQueue := o, rest;
    }

    /** `put_prev_task`: the task goes to the back whatever `front` says. */
    method PutPrevTask(t: TaskId, front: bool)
      modifies this`readyQueue
      ensures readyQueue == old(readyQueue) + [t]
    {
      readyQueue := Fifo.Push(readyQueue, t);
    }

    /** `add_task`: the task goes to the back of this record's queue. */
    method AddTask(t: TaskId)
      modifies this`readyQueue
      ensures readyQueue == old(readyQueue) + [t]
    {
      readyQueue := Fifo.Push(readyQueue, t);
    }

    /** `current_task`: the stored option, `None` until a task is set. */
    method CurrentTask() returns (t: Option<TaskId>)
      ensures t == currentTask
    {
      t := currentTask;
    }

    /** `set_current_task`: stores `Some(t)`; nothing puts `None` back. */
    method SetCurrentTask(t: TaskId)
      modifies this`currentTask
      ensures currentTask == Some(t)
    {
      currentTask := Some(t);
    }
  }

  /** A table of records, each its own object. */
  ghost predicate Distinct(table: seq<Processor>)
  {
    forall i, j :: 0 <= i < j < |table| ==> table[i] != table[j]
  }

  /** The ready queues of a table of records, in table order. */
  ghost function QueuesOf(table: seq<Processor>): (qs: Table.Queues)
    reads set p | p in table
    ensures |qs| == |table| && forall i :: 0 <= i < |table| ==> qs[i] == table[i].readyQueue
  {
    seq(|table|, i requires 0 <= i < |table| reads set p | p in table => table[i].readyQueue)
  }

  /** `select_processor`: the first record of the table whose ready queue is
      as short as any; the table must not be empty (`unwrap`). */
  method SelectProcessor(table: seq<Processor>) returns (p: Processor)
    requires |table| >= 1
    ensures p == table[Table.FirstMin(QueuesOf(table))]
  {
    var best := 0;
    for i := 1 to |table|
      invariant best < i
      invariant forall j :: 0 <= j < i ==> |table[best].readyQueue| <= |table[j].readyQueue|
      invariant forall j :: 0 <= j < best ==> |table[best].readyQueue| < |table[j].readyQueue|
    {
      if |table[i].readyQueue| < |table[best].readyQueue| {
        best := i;
      }
    }
    Table.FirstMinUnique(QueuesOf(table), best);
    p := table[best];
  }

  /** `first_add_task`: pushes the task onto the record `select_processor`
      chooses; every other queue, every current task and every scheduler
      pointer stays as it was. */
  method FirstAddTask(table: seq<Processor>, t: TaskId)
    requires |table| >= 1 && Distinct(table)
    modifies set p | p in table
    ensures QueuesOf(table) == Table.FirstAdd(old(QueuesOf(table)), t)
    ensures forall i :: 0 <= i < |table| ==> table[i].currentTask == old(table[i].currentTask)
    ensures forall i :: 0 <= i < |table| ==> table[i].schedulerPtr == old(table[i].schedulerPtr)
  {
    var p := SelectProcessor(table);
    p.AddTask(t);
  }
}
