/** The per-CPU records of the runtime and the area that holds them: one
    record per configured CPU, slot `i` at address `base + i * size`. */
module Percpu {
  import opened Tasks
  import Fifo
  import Table
  import Bits

  /** One CPU's record (`PerCPU`): its ready queue and the task it runs. */
  class PerCpu {
    var readyQueue: Fifo.Queue
    var currentTask: Option<TaskId>

    /** `PerCPU::new`: an empty queue and no current task. */
    constructor ()
      ensures readyQueue == [] && currentTask == None
    {
      readyQueue := [];
      currentTask := None;
    }

    /** `pick_next_task`: the oldest queued task, which leaves the queue,
        or NULL with the queue left empty. */
    method PickNextTask() returns (t: TaskId)
      modifies this`readyQueue
      ensures old(readyQueue) == [] ==> t == NULL && readyQueue == []
      ensures old(readyQueue) != [] ==> t == old(readyQueue)[0] && readyQueue == old(readyQueue)[1..]
    {
      var (o, rest) := Fifo.Pop(readyQueue);
      readyQueue := rest;
      t := OrNull(o);
    }

    /** `put_prev_task`: the task goes to the back whatever `front` says. */
    method PutPrevTask(t: TaskId, front: bool)
      modifies this`readyQueue
      ensures readyQueue == old(readyQueue) + [t]
    {
      readyQueue := Fifo.Push(readyQueue, t);
    }

    /** `add_task`: the task goes to the back of this record's queue. */
    method AddTask(t: TaskId)
      modifies this`readyQueue
      ensures readyQueue == old(readyQueue) + [t]
    {
      readyQueue := Fifo.Push(readyQueue, t);
    }

    /** `current_task`: the task last set, or NULL if none was. */
    method CurrentTask() returns (t: TaskId)
      ensures currentTask.None? ==> t == NULL
      ensures currentTask.Some? ==> t == currentTask.value
    {
      t := OrNull(currentTask);
    }

    /** `set_current_task`: stores `Some(t)`, NULL included. */
    method SetCurrentTask(t: TaskId)
      modifies this`currentTask
      ensures currentTask == Some(t)
    {
      currentTask := Some(t);
    }
  }

  /** A reference handed out by `percpus()`: the address of a slot and the
      record that lives there. */
  datatype SlotRef = SlotRef(addr: nat, record: PerCpu)

  /** The per-CPU area: `smp` slots of stride `areaSize` from `base`. */
  class PerCpuArea {
    /** The configured core count (`axconfig::SMP`). */
    const smp: nat
    /** The area's base address (`get_data_base()`). */
    const base: nat
    /** `PERCPU_AREA_SIZE`: the stride between slots, 0 until `init`. */
    var areaSize: nat
    /** Slot `i`'s record; null until `init` has constructed it. */
    const slots: array<PerCpu?>

    /** The area has one slot per configured CPU, and there is one at least. */
    predicate Shaped()
    {
      slots.Length == smp && smp >= 1
    }

    /** Every slot holds its own constructed record. */
    ghost predicate Valid()
      reads slots
    {
      Shaped()
      && (forall i :: 0 <= i < smp ==> slots[i] != null)
      && (forall i, j :: 0 <= i < j < smp ==> slots[i] != slots[j])
    }

    ghost function Records(): set<PerCpu?>
      reads slots
    {
      set i | 0 <= i < slots.Length :: slots[i]
    }

    /** The ready queues, CPU by CPU. */
    ghost function Queues(): (qs: Table.Queues)
      requires Valid()
      reads slots, Records()
      ensures |qs| == smp && forall i :: 0 <= i < smp ==> qs[i] == slots[i].readyQueue
    {
      seq(smp, i requires 0 <= i < smp && slots[i] != null reads slots, Records() => slots[i].readyQueue)
    }

    /** The current-task slots, CPU by CPU. */
    ghost function Currents(): (cs: seq<Option<TaskId>>)
      requires Valid()
      reads slots, Records()
      ensures |cs| == smp && forall i :: 0 <= i < smp ==> cs[i] == slots[i].currentTask
    {
      seq(smp, i requires 0 <= i < smp && slots[i] != null reads slots, Records() => slots[i].currentTask)
    }

    /** The memory of an area of `smp` slots at `base`, before `init`. */
    constructor (smp: nat, base: nat)
      requires smp >= 1
      ensures this.smp == smp && this.base == base && areaSize == 0
      ensures Shaped() && fresh(slots)
      ensures forall i :: 0 <= i < smp ==> slots[i] == null
    {
      this.smp := smp;
      this.base := base;
      areaSize := 0;
      slots := new PerCpu?[smp](_ => null);
    }

    /** `init_percpu(size)`: records the stride and writes a fresh record
        into every slot, in place: a record already in a slot is reset, so
        a reference taken earlier sees the fresh state, and an empty slot
        gets a new record. */
    method Init(size: nat)
      requires Shaped() && size > 0 && (areaSize == 0 || areaSize == size)
      requires forall i, j :: 0 <= i < j < smp && slots[i] != null ==> slots[i] != slots[j]
      modifies this`areaSize, slots, Records()
      ensures Valid() && areaSize == size
      ensures forall i :: 0 <= i < smp && old(slots[i]) == null ==> fresh(slots[i])
      ensures forall i :: 0 <= i < smp && old(slots[i]) != null ==> slots[i] == old(slots[i])
      ensures Queues() == Table.Empty(smp)
      ensures forall i :: 0 <= i < smp ==> Currents()[i] == None
    {
      areaSize := size;
      for i := 0 to smp
        invariant areaSize == size
        invariant forall j :: i <= j < smp ==> slots[j] == old(slots[j])
        invariant forall j :: 0 <= j < i ==> slots[j] != null
        invariant forall j :: 0 <= j < i && old(slots[j]) == null ==> fresh(slots[j])
        invariant forall j :: 0 <= j < i && old(slots[j]) != null ==> slots[j] == old(slots[j])
        invariant forall j :: 0 <= j < i ==> slots[j].readyQueue == [] && slots[j].currentTask == None
        invariant forall j, k :: 0 <= j < k < i ==> slots[j] != slots[k]
      {
        if slots[i] == null {
          slots[i] := new PerCpu();
        } else {
          slots[i].readyQueue := [];
          slots[i].currentTask := None;
        }
      }
    }

    /** `percpus()`: a reference to every slot, in index order, slot `i` at
        address `base + i * areaSize`, the references laid out one stride
        apart without overlapping. */
    method Percpus() returns (ps: seq<SlotRef>)
      requires Valid()
      ensures |ps| == smp
      ensures forall i :: 0 <= i < smp ==> ps[i].record == slots[i] && ps[i].addr == base + i * areaSize
      ensures forall i, j :: 0 <= i < j < smp ==> ps[i].addr + areaSize <= ps[j].addr
    {
      ps := [];
      for i := 0 to smp
        invariant |ps| == i
        invariant forall j :: 0 <= j < i ==> ps[j].record == slots[j] && ps[j].addr == base + j * areaSize
      {
        ps := ps + [SlotRef(base + i * areaSize, slots[i])];
      }
      forall i, j | 0 <= i < j < smp
        ensures ps[i].addr + areaSize <= ps[j].addr
      {
        StrideApart(base, areaSize, i, j);
      }
    }

    /** `select_cpu`: the first record, in index order, whose ready queue
        is as short as any. */
    method SelectCpu() returns (p: PerCpu)
      requires Valid()
      ensures p == slots[Table.FirstMin(Queues())]
    {
      var ps := Percpus();
      var best := 0;
      for i := 1 to |ps|
        invariant best < i
        invariant forall j :: 0 <= j < i ==> |slots[best].readyQueue| <= |slots[j].readyQueue|
        invariant forall j :: 0 <= j < best ==> |slots[best].readyQueue| < |slots[j].readyQueue|
      {
        if |ps[i].record.readyQueue| < |ps[best].record.readyQueue| {
          best := i;
        }
      }
      Table.FirstMinUnique(Queues(), best);
      p := ps[best].record;
    }

    /** `first_add_task`: pushes the task onto the record `select_cpu`
        chooses; no other queue and no current task changes. */
    method FirstAddTask(t: TaskId)
      requires Valid()
      modifies Records()
      ensures Queues() == Table.FirstAdd(old(Queues()), t)
      ensures Currents() == old(Currents())
    {
      var p := SelectCpu();
      p.AddTask(t);
    }

    /** `get_percpu` with the calling CPU's register value: the record in
        the slot the area-wide mask resolves it to. */
    method GetPercpu(gp: nat, ghost cpu: nat) returns (p: PerCpu)
      requires Valid() && cpu < smp && areaSize > 0
      requires smp * areaSize < Bits.Pow2(Bits.WORD_BITS - 1) && gp < Bits.Pow2(Bits.WORD_BITS)
      requires gp % Bits.Pow2(Bits.GetBits(smp * areaSize)) == cpu * areaSize
      ensures p == slots[cpu]
    {
      Bits.FixedResolvesOffset(base, areaSize, smp, smp * areaSize, cpu, gp);
      var addr := Bits.PercpuAddressFixed(base, gp, areaSize, smp);
      Bits.ModUnique(addr - base, areaSize, cpu, 0);
      p := slots[(addr - base) / areaSize];
    }
  }

  /** Slots `i < j` of stride `size` do not overlap. */
  lemma StrideApart(base: nat, size: nat, i: nat, j: nat)
    requires i < j
    ensures base + i * size + size <= base + j * size
  {
    assert j * size == i * size + (j - i) * size;
    if size > 0 {
      Bits.MulAtLeast(size, j - i);
    }
  }
}
