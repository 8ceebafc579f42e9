/** Task identifiers as the runtime sees them: opaque handles owned by the
    kernel, with one reserved value, NULL, that means "no task". */
module Tasks {

  /** An opaque task handle. Only equality matters to this runtime; the raw
      number stands for whatever the kernel's identifier carries. */
  datatype TaskId = TaskId(raw: nat)

  /** The reserved "no task" handle (`TaskId::NULL`). */
  const NULL: TaskId := TaskId(0)

  datatype Option<T> = None | Some(value: T)

  /** `unwrap_or(TaskId::NULL)`: the task held, or NULL when there is none. */
  function OrNull(o: Option<TaskId>): (t: TaskId)
  {
    match o
    case Some(t) => t
    case None => NULL
  }
}
