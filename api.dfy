/** The exported call surface: each call acts on the calling CPU's record,
    named here by its index `cpu` (the slot `get_percpu` resolves the
    CPU's register to), except `init`, which resets every record, and
    `first_add_task`, which picks the least loaded one. Every call that
    pushes or pops a task is specified by its step in the pure table
    model, so the lemmas of `Table` hold of any run of those calls;
    `current_task` and `set_current_task` are specified on `Currents()`. */
module Api {
  import opened Tasks
  import Table
  import Percpu

  /** `current_task()`: the calling CPU's running task, or NULL. */
  method CurrentTask(area: Percpu.PerCpuArea, cpu: nat) returns (t: TaskId)
    requires area.Valid() && cpu < area.smp
    ensures t == OrNull(area.Currents()[cpu])
  {
    t := area.slots[cpu].CurrentTask();
  }

  /** `put_prev_task(task, front)`: `front` is passed on and has no effect;
      the task joins the back of the calling CPU's queue. */
  method PutPrevTask(area: Percpu.PerCpuArea, cpu: nat, t: TaskId, front: bool)
    requires area.Valid() && cpu < area.smp
    modifies area.slots[cpu]
    ensures area.Queues() == Table.Step(old(area.Queues()), Table.PutPrevTask(cpu, t, front)).1
    ensures area.Currents() == old(area.Currents())
  {
    area.slots[cpu].PutPrevTask(t, front);
  }

  /** `set_current_task(task)`: only the calling CPU's slot changes. */
  method SetCurrentTask(area: Percpu.PerCpuArea, cpu: nat, t: TaskId)
    requires area.Valid() && cpu < area.smp
    modifies area.slots[cpu]
    ensures area.Currents() == old(area.Currents())[cpu := Some(t)]
    ensures area.Queues() == old(area.Queues())
  {
    area.slots[cpu].SetCurrentTask(t);
  }

  /** `init(percpu_size)`: every CPU's record is reset to the fresh state,
      in place where a record already exists. */
  method Init(area: Percpu.PerCpuArea, size: nat)
    requires area.Shaped() && size > 0 && (area.areaSize == 0 || area.areaSize == size)
    requires forall i, j :: 0 <= i < j < area.smp && area.slots[i] != null ==> area.slots[i] != area.slots[j]
    modifies area`areaSize, area.slots, area.Records()
    ensures area.Valid() && area.areaSize == size
    ensures forall i :: 0 <= i < area.smp && old(area.slots[i]) == null ==> fresh(area.slots[i])
    ensures forall i :: 0 <= i < area.smp && old(area.slots[i]) != null ==> area.slots[i] == old(area.slots[i])
    ensures area.Queues() == Table.Empty(area.smp)
    ensures forall i :: 0 <= i < area.smp ==> area.Currents()[i] == None
  {
    area.Init(size);
  }

  /** `pick_next_task()`: pops from the calling CPU's queue only, NULL when
      that queue is empty. */
  method PickNextTask(area: Percpu.PerCpuArea, cpu: nat) returns (t: TaskId)
    requires area.Valid() && cpu < area.smp
    modifies area.slots[cpu]
    ensures (t, area.Queues()) == Table.Step(old(area.Queues()), Table.PickNextTask(cpu))
    ensures area.Currents() == old(area.Currents())
  {
    ghost var before := area.Queues();
    t := area.slots[cpu].PickNextTask();
    assert area.Queues() == before[cpu := area.slots[cpu].readyQueue];
  }

  /** `add_task(task)`: only the calling CPU's queue changes. */
  method AddTask(area: Percpu.PerCpuArea, cpu: nat, t: TaskId)
    requires area.Valid() && cpu < area.smp
    modifies area.slots[cpu]
    ensures area.Queues() == Table.Step(old(area.Queues()), Table.AddTask(cpu, t)).1
    ensures area.Currents() == old(area.Currents())
  {
    area.slots[cpu].AddTask(t);
  }

  /** `first_add_task(task)`: whoever calls, the task goes to the least
      loaded CPU, the lowest index among equals. */
  method FirstAddTask(area: Percpu.PerCpuArea, t: TaskId)
    requires area.Valid()
    modifies area.Records()
    ensures area.Queues() == Table.Step(old(area.Queues()), Table.FirstAddTask(t)).1
    ensures area.Currents() == old(area.Currents())
  {
    area.FirstAddTask(t);
  }
}
