# Per-CPU scheduling table of a relocatable scheduling runtime

This project models the core of a small runtime that a kernel loads as a
position-independent shared module on an SMP RISC-V machine. It keeps one
record per configured CPU in a contiguous per-CPU area. Each record holds:

- a FIFO ready queue of task identifiers;
- the task currently running on that CPU;
- in the alternate `Processor` revision, an opaque scheduler pointer.

The exported C functions act on the calling CPU's record, with two
exceptions: `init` resets every record, and `first_add_task` places a new
task on the least loaded CPU.

The model is sequential:

- Each ready queue is a `seq<TaskId>`, oldest first.
- Each atomic cell is a plain field.
- The per-CPU area is a class over an `array` of record objects: slot `i`
  stands for the record at address `base + i * size`.

Modules, following the source:

- `Tasks`: `TaskId`, the reserved `NULL`, `Option`.
- `Fifo`: the ready queue as a sequence, and what runs of pushes and pops
  do to it.
- `Table`: the queues of all CPUs as a value; the first-minimum choice of
  `min_by_key`; the effect of each exported call (`Step`); and lemmas over
  whole runs of calls (FIFO order and queue isolation).
- `Bits`: `get_bits`, `leading_zeros`, the mask and bitwise AND of
  `get_percpu`, on naturals below 2^64.
- `Percpu`: class `PerCpu` (the record of `src/percpu.rs`) and class
  `PerCpuArea` (`init_percpu`, `percpus`, `select_cpu`, `first_add_task`,
  `get_percpu`).
- `Processors`: class `Processor` (the record of `src/processor.rs`) and
  its selection over a table of `Processor` records. The two revisions
  are kept apart.
- `Api`: the exported functions of `src/api.rs`. Each takes the calling
  CPU's index. The four calls that push or pop a task (`add_task`,
  `put_prev_task`, `pick_next_task`, `first_add_task`) are specified by
  their `Table.Step`, so the `Table` lemmas apply to any run of them.
  `current_task` and `set_current_task` are specified on the current-task
  slots, and `init` by the fresh state it leaves.
- `Scenarios`: small callers on one or two CPUs. They show what a kernel
  can conclude from the contracts alone.

Notes on the source as it stands:

- This revision has no boot-core flag, CPU id, timer deadline or per-CPU
  bring-up; its one `init` (`src/api.rs:22-26`) resets every slot.
- In `src/processor.rs:84-88`, `select_processor` iterates
  `crate::percpu::percpus()`, which yields `PerCPU` references, yet it
  returns a `Processor`. The model gives that revision its own selection
  over a table of `Processor` records.

## Model

| member | source | states |
|---|---|---|
| `Fifo.Pop` | src/processor.rs:59-61 | the pop yields `None` exactly on an empty queue, which stays empty; otherwise `Some` of the front, and the queue left is the old one without that front |
| `Fifo.PushAllAppends` | src/percpu.rs:47-49 | a run of `add_task` calls appends exactly those tasks, in call order |
| `Fifo.PickNTakesOldest` | src/percpu.rs:34-36 | the first `n` picks return the `n` oldest tasks, oldest first, and leave exactly the rest queued |
| `Fifo.PickNDrains` | src/percpu.rs:34-36 | once every queued task has been picked, one more pick returns NULL and the queue stays empty |
| `Fifo.DrainInOrder` | src/percpu.rs:34-49 | on one CPU starting empty, adding `ts` then picking `|ts| + 1` times returns every task of `ts` once, in order, then NULL |
| `Table.FirstMin` | src/percpu.rs:58-63 | the chosen index is a CPU, its queue is as short as any, and every earlier CPU's queue is strictly longer (first minimum, as `min_by_key` returns) |
| `Table.FirstMinUnique` | src/percpu.rs:58-63 | those two properties determine the chosen index |
| `Table.PushAt` | src/percpu.rs:47-49 | a push on CPU `i` appends the task to `i`'s queue and leaves every other queue unchanged |
| `Table.PickAt` | src/percpu.rs:34-36 | a pick on CPU `i` returns NULL and changes nothing on an empty queue, and otherwise returns the front of `i`'s queue and removes it; other queues are unchanged |
| `Table.TotalPushAt` | src/percpu.rs:53-55 | any push adds exactly one task to the number queued over all CPUs |
| `Table.FirstAddPlacement` | src/percpu.rs:53-63 | `first_add_task` appends to the first shortest queue, leaves all other queues unchanged, and grows the total by one |
| `Table.Step` | src/api.rs:28-41 | no exported call changes the number of per-CPU queues |
| `Table.PutPrevIgnoresFront` | src/percpu.rs:40-42 | `put_prev_task` gives the same result for both values of `front`, and the same as `add_task`: the task goes to the back of the caller's queue |
| `Table.StepHistory` | src/api.rs:29-36 | for one call and any CPU `j`: `j`'s old queue plus what the call pushed on `j` equals what it popped from `j` plus `j`'s new queue; a pick on `j` returns the popped task, or NULL if `j`'s queue was empty |
| `Table.QueueHistory` | src/api.rs:28-41 | for any run of calls and any CPU `j`: `j`'s initial queue plus every task placed on `j` equals every task taken off `j` plus `j`'s final queue (per-CPU FIFO) |
| `Table.Isolation` | src/api.rs:29-36 | a task that was never on CPU `j`'s queue and never placed there is never taken off `j`, whatever happens on other CPUs |
| `Table.PickReturnsNext` | src/api.rs:28-36 | at any point of any run, CPU `j`'s queue is empty exactly when every task that was on `j` or was placed there has been taken off, and a pick on `j` then returns NULL; otherwise it returns the oldest of those not yet taken off (a queued NULL is returned like any other task) |
| `Table.PickIsolation` | src/api.rs:28-36 | a pick on CPU `j` never returns a task that was neither on `j` nor placed there earlier in the run, except as NULL from an empty queue |
| `Table.TwoCpuPlacement` | src/percpu.rs:58-63 | two idle CPUs: three `first_add_task` calls choose CPU 0, CPU 1, CPU 0, leaving queues `[a, c]` and `[b]` |
| `Bits.LeadingZerosBounds` | src/percpu.rs:138 | `leading_zeros` of a `w`-bit zero is `w`; of a non-zero value it counts the zeros above the highest set bit |
| `Bits.GetBitsBounds` | src/percpu.rs:137-139 | `get_bits(0) == 0`; for `size > 0` the result `b` satisfies `2^(b-1) <= size < 2^b`, and `b <= 64` |
| `Bits.GetBitsUnique` | src/percpu.rs:137-139 | that `b` is the only one with `2^(b-1) <= size < 2^b` |
| `Bits.AndLowMask` | src/percpu.rs:131-132 | `x & ((1 << b) - 1)` equals `x mod 2^b` |
| `Bits.PercpuAddressBounds` | src/percpu.rs:125-134 | for `size < 2^63` the shift stays inside the word; the resolved address lies in `[base, base + 2^b)`, below `base + 2 * size` when `size > 0`, and equals `base` when `size == 0` |
| `Bits.OnlyTwoSlotsReachable` | src/percpu.rs:130-133 | as written, no register value resolves to slot `i >= 2` when the stride is non-zero |
| `Bits.SlotTwoResolvesToSlotZero` | src/percpu.rs:130-133 | as written, with stride 64 and base 0x1000, the address of slot 2 held in `gp` resolves to slot 0 |
| `Bits.SlotOffsetFits` | src/percpu.rs:130-133 | with a mask as wide as the whole area, every slot's offset `i * size` lies below the mask, so no slot's offset is cut off |
| `Bits.FixedResolvesOffset` | src/percpu.rs:130-133 | with the area-wide mask, a register whose bits below the mask hold slot `i`'s offset resolves to slot `i`, whatever its higher bits |
| `Bits.FixedResolvesEverySlot` | src/percpu.rs:130-133 | with the area-wide mask and an area base aligned to it, the register holding slot `i`'s address resolves to slot `i`, for every slot |
| `Percpu.StrideApart` | src/percpu.rs:114-115 | slots `i < j` of stride `size` do not overlap |
| `Percpu.PerCpu.constructor` | src/percpu.rs:24-30 | a new record has an empty queue and no current task |
| `Percpu.PerCpu.PickNextTask` | src/percpu.rs:34-36 | on an empty queue returns NULL and leaves it empty; otherwise returns the oldest task and removes exactly it |
| `Percpu.PerCpu.PutPrevTask` | src/percpu.rs:40-42 | appends the task at the back for either value of `front` |
| `Percpu.PerCpu.AddTask` | src/percpu.rs:47-49 | appends the task at the back of this record's queue; the current task is not touched |
| `Percpu.PerCpu.CurrentTask` | src/percpu.rs:65-67 | the task last stored, or NULL when none was |
| `Percpu.PerCpu.SetCurrentTask` | src/percpu.rs:69-71 | stores `Some(t)`, so NULL is stored as a task too; the queue is not touched |
| `Percpu.PerCpuArea.constructor` | src/percpu.rs:93-97 | an area of `smp >= 1` slots at the data base, with stride 0 and no record constructed yet |
| `Percpu.PerCpuArea.Init` | src/percpu.rs:99-108 | records the stride as `size` and writes a fresh record into every one of the `smp` slots in place: a record already there is reset and stays the same object, an empty slot gets a new record; afterwards all queues are empty, no CPU has a current task, and each slot is its own record |
| `Percpu.PerCpuArea.Percpus` | src/percpu.rs:110-119 | exactly `smp` references in index order; reference `i` is slot `i`'s record at address `base + i * size`, and the slots are one stride apart without overlapping |
| `Percpu.PerCpuArea.SelectCpu` | src/percpu.rs:57-63 | the record of the first CPU whose queue is as short as any |
| `Percpu.PerCpuArea.FirstAddTask` | src/percpu.rs:51-55 | the task is appended to the queue `SelectCpu` chooses; other queues and all current tasks are unchanged |
| `Percpu.PerCpuArea.GetPercpu` | src/percpu.rs:124-134 | with the area-wide mask, a register whose low bits hold CPU `cpu`'s slot offset resolves to that CPU's record |
| `Processors.Processor.constructor` | src/processor.rs:35-43 | a new record has an empty queue, no current task and scheduler pointer 0 |
| `Processors.Processor.GetSchedulerPtr` | src/processor.rs:45-49 | returns the pointer last stored |
| `Processors.Processor.SetSchedulerPtr` | src/processor.rs:51-55 | stores the pointer; queue and current task are unchanged |
| `Processors.Processor.PickNextTask` | src/processor.rs:57-61 | `None` on an empty queue, which stays empty; otherwise `Some` of the oldest task, which is removed |
| `Processors.Processor.PutPrevTask` | src/processor.rs:63-67 | appends the task at the back for either value of `front` |
| `Processors.Processor.AddTask` | src/processor.rs:69-74 | appends the task at the back of this record's queue |
| `Processors.Processor.CurrentTask` | src/processor.rs:94-96 | returns the stored option, `None` until a task is set |
| `Processors.Processor.SetCurrentTask` | src/processor.rs:97-99 | stores `Some(t)`; no call stores `None` again |
| `Processors.SelectProcessor` | src/processor.rs:83-89 | on a non-empty table, the first record whose queue is as short as any |
| `Processors.FirstAddTask` | src/processor.rs:76-81 | appends the task to that record's queue; every other queue, every current task and every scheduler pointer is unchanged |
| `Api.CurrentTask` | src/api.rs:7-10 | the calling CPU's current task, or NULL |
| `Api.PutPrevTask` | src/api.rs:12-15 | `front` is passed on, yet the task lands at the back of the caller's queue and nothing else changes |
| `Api.SetCurrentTask` | src/api.rs:17-20 | only the caller's current-task slot changes, to `Some(t)`; queues are unchanged |
| `Api.Init` | src/api.rs:22-26 | every one of the `smp` records is reset where it lives: all queues empty, no current task, stride `size` |
| `Api.PickNextTask` | src/api.rs:28-31 | pops only from the caller's queue, returning NULL when it is empty |
| `Api.AddTask` | src/api.rs:33-36 | only the caller's queue changes, by appending the task |
| `Api.FirstAddTask` | src/api.rs:38-41 | the task goes to the least loaded CPU, lowest index among equals, whichever CPU calls |
| `Scenarios.SingleCpuAddPick` | src/api.rs:28-36 | one CPU: `add_task(a)`, then picks return `a` and then NULL |
| `Scenarios.AddedTaskStaysOnItsCpu` | src/api.rs:28-36 | a task added on CPU 0 is not returned on CPU 1 and is returned on CPU 0 |
| `Scenarios.CurrentTaskRoundTrip` | src/api.rs:7-20 | a fresh CPU reports NULL; after `set_current_task(t)` it reports `t`, NULL included; another CPU still reports NULL |
| `Scenarios.TwoCpuFirstAdd` | src/api.rs:38-41 | two idle CPUs, three `first_add_task` calls: CPU 0 then returns `a` and `c`, CPU 1 returns `b` |
| `Scenarios.PlaceThree` | src/percpu.rs:53-63 | those three placements leave the queues `[a, c]` and `[b]` |
| `Scenarios.ReinitResetsInPlace` | src/percpu.rs:99-108 | a record reference taken from `percpus()` before a second `init` sees an empty queue after it |
| `Scenarios.ProcessorLifecycle` | src/processor.rs:35-99 | a new `Processor` has pointer 0, no current task and an empty queue; a stored pointer reads back; a set task reads back as `Some` |

## Findings

| source | as written | input that shows it | evidently intended | confidence | as-written member | corrected member |
|---|---|---|---|---|---|---|
| src/percpu.rs:130-133 | the mask width comes from `get_bits(PERCPU_AREA_SIZE)`, the bit length of one slot's stride, so the offset taken from `gp` is below `2 * size` | 4 CPUs, stride 64, area base 0x1000: `gp` = 0x1080, slot 2's address, resolves to 0x1000, slot 0's record (`Bits.SlotTwoResolvesToSlotZero`) | a mask as wide as the whole area, `get_bits(SMP * size)`, so that every slot's offset survives the mask | low, not executed; it depends on `gp` holding a slot address in a suitably aligned area, and the kernel code that sets `gp` is not part of this model | `Bits.OnlyTwoSlotsReachable` | `Bits.FixedResolvesEverySlot` |

## Left out

- Concurrency: the lock-free queue's internals, `AtomicCell`, atomics and
  their memory ordering are not modelled. The sample-then-push race of
  `first_add_task` is also out. The point of all of these is concurrent
  access; the model is sequential.
- The `mv {}, gp` register read: it is a parameter of `GetPercpu`, and
  `Api` takes the calling CPU's index instead.
- `Api.AddTask`, `Api.PutPrevTask`, `Api.PickNextTask`,
  `Api.CurrentTask`, `Api.SetCurrentTask`: each acts on the record of the
  CPU index it is given, which is the slot the corrected, area-wide mask
  of `Percpu.PerCpuArea.GetPercpu` resolves the register to. With the
  mask as written and `SMP >= 3`, CPUs 2 and up resolve to slot 0 or 1
  (see Findings), so their calls would act on CPU 0's or CPU 1's record;
  the per-CPU isolation that `Table.Isolation` and `Table.PickIsolation`
  give these calls holds only under the corrected resolution.
- Raw pointer casts and `static mut`: the area is an array of records
  plus a stride field. Addresses are only computed (`base + i * size`),
  never dereferenced. Wrap-around of the `usize` address additions and
  multiplications (`base + i * size`) is not modelled.
- `crate::get_data_base()` is a constructor parameter (`base`).
  `allocator::init()` is not part of this model.
- `StackPool`, `RunningStack` and the four stack methods of both
  revisions: one-line forwards to a type that is not part of this model.
- `unsafe impl Sync/Send` for `Processor`: a type-system assertion with
  no behaviour.
- `build.rs`: linker flags only.
- The `repr(C, align(64))` layout and padding: the stride is whatever
  `init` receives.
- `id::TaskId` is not part of this model. `TaskId` is a datatype over
  naturals, and `NULL` is `TaskId(0)`; no property depends on that value.
- `Processors.Processor.SetSchedulerPtr`: the pointer is any natural, not
  a 64-bit `usize`. The record only stores it and reads it back.
- `Bits.PercpuAddressBounds`: requires `size < 2^63`. It does not model
  the overflow of `1 << 64` for a larger size.
- `Processors.FirstAddTask`: requires the records of the table to be
  distinct objects, as slots at distinct addresses are.
- `Percpu.PerCpuArea.Init`: requires a non-zero stride and keeps each
  slot's record a separate object, so slots never overlap. The source
  accepts any stride: at stride 0, or any stride below the size of one
  record, the slots share memory, and with stride 0 every CPU sees the
  same record. Record size and overlapping memory are not modelled.
- `Percpu.PerCpuArea.Init`: requires a re-init to use the stride of the
  first one. The source writes slot `i` at `base + i * size` with the new
  size, so a re-init at a different stride moves slots 1 and up to new
  addresses and leaves the records at the old addresses as they were (or
  partly overwritten); that is not modelled.
- `Api.Init`: the same requirement that a re-init keeps the stride, for
  the same reason as `Percpu.PerCpuArea.Init`.
- `Api.Init`: the same non-zero stride requirement and the same
  separate-records assumption as `Percpu.PerCpuArea.Init`. Queue
  isolation in `Table` holds for the model because of this assumption.
- `Percpu.PerCpuArea.Init`: before the first `init`, the source overwrites
  uninitialised memory; the model starts from null slots and constructs
  a record in each.
- `Percpu.PerCpuArea.GetPercpu`: models the corrected mask, not the one as
  written (see Findings). It requires a non-zero stride and a register
  whose low bits hold the calling CPU's slot offset.
