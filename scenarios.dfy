/** Callers of the exported surface on small configurations: what a kernel
    can rely on from the contracts alone. */
module Scenarios {
  import opened Tasks
  import Table
  import Percpu
  import Processors
  import Api

  /** One CPU: `add_task(a)`, then `pick_next_task()` returns `a` and a
      second pick returns NULL. */
  method SingleCpuAddPick(a: TaskId) returns (first: TaskId, second: TaskId)
    ensures first == a && second == NULL
  {
    var area := new Percpu.PerCpuArea(1, 0x8000_0000);
    Api.Init(area, 64);
    Api.AddTask(area, 0, a);
    first := Api.PickNextTask(area, 0);
    second := Api.PickNextTask(area, 0);
  }

  /** Two CPUs: a task added on CPU 0 is not seen by a pick on CPU 1, and
      is still there for CPU 0. */
  method AddedTaskStaysOnItsCpu(a: TaskId) returns (other: TaskId, own: TaskId)
    ensures other == NULL && own == a
  {
    var area := new Percpu.PerCpuArea(2, 0x8000_0000);
    Api.Init(area, 64);
    Api.AddTask(area, 0, a);
    other := Api.PickNextTask(area, 1);
    own := Api.PickNextTask(area, 0);
  }

  /** `set_current_task(t)` then `current_task()` returns `t` on that CPU,
      NULL included, while a CPU never set still reports NULL. */
  method CurrentTaskRoundTrip(t: TaskId) returns (fresh0: TaskId, got: TaskId, other: TaskId)
    ensures fresh0 == NULL && got == t && other == NULL
  {
    var area := new Percpu.PerCpuArea(2, 0x8000_0000);
    Api.Init(area, 64);
    assert area.Currents()[0] == None && area.Currents()[1] == None;
    fresh0 := Api.CurrentTask(area, 0);
    Api.SetCurrentTask(area, 0, t);
    assert area.Currents()[0] == Some(t) && area.Currents()[1] == None;
    got := Api.CurrentTask(area, 0);
    other := Api.CurrentTask(area, 1);
  }

  /** Two CPUs, both idle: three `first_add_task` calls place `a` on CPU 0,
      `b` on CPU 1 and `c` on CPU 0, so CPU 0 then hands out `a` and `c`
      and CPU 1 hands out `b`. */
  method TwoCpuFirstAdd(a: TaskId, b: TaskId, c: TaskId) returns (p0: TaskId, p1: TaskId, p2: TaskId)
    ensures p0 == a && p1 == c && p2 == b
  {
    var area := new Percpu.PerCpuArea(2, 0x8000_0000);
    Api.Init(area, 64);
    PlaceThree(area, a, b, c);
    p0 := Api.PickNextTask(area, 0);
    assert area.Queues() == [[c], [b]];
    p1 := Api.PickNextTask(area, 0);
    p2 := Api.PickNextTask(area, 1);
  }

  /** The three placements of TwoCpuFirstAdd on an idle two-CPU area. */
  method PlaceThree(area: Percpu.PerCpuArea, a: TaskId, b: TaskId, c: TaskId)
    requires area.Valid() && area.smp == 2 && area.Queues() == Table.Empty(2)
    modifies area.Records()
    ensures area.Queues() == [[a, c], [b]]
  {
    Table.TwoCpuPlacement(a, b, c);
    Api.FirstAddTask(area, a);
    Api.FirstAddTask(area, b);
    Api.FirstAddTask(area, c);
  }

  /** A fresh `Processor` has no scheduler pointer, no current task and an
      empty queue; a stored pointer reads back; a set task reads back as
      `Some`. */
  method ProcessorLifecycle(ptr: nat, t: TaskId) returns (ptr0: nat, ptr1: nat, picked: Option<TaskId>, cur0: Option<TaskId>, cur1: Option<TaskId>)
    ensures ptr0 == 0 && ptr1 == ptr && picked == None && cur0 == None && cur1 == Some(t)
  {
    var p := new Processors.Processor();
    ptr0 := p.GetSchedulerPtr();
    cur0 := p.CurrentTask();
    p.SetSchedulerPtr(ptr);
    ptr1 := p.GetSchedulerPtr();
    picked := p.PickNextTask();
    p.SetCurrentTask(t);
    cur1 := p.CurrentTask();
  }

  /** A record reference taken from `percpus()` before a second `init`
      sees the fresh state afterwards: `init` resets each record where it
      lives rather than moving it. */
  method ReinitResetsInPlace(a: TaskId) returns (before: seq<TaskId>, after: seq<TaskId>)
    ensures before == [a] && after == []
  {
    var area := new Percpu.PerCpuArea(2, 0x8000_0000);
    Api.Init(area, 64);
    var refs := area.Percpus();
    var p := refs[0].record;
    Api.AddTask(area, 0, a);
    before := p.readyQueue;
    Api.Init(area, 64);
    after := p.readyQueue;
  }
}
