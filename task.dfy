/**
 * A single task: a name with no setter and a three-valued status that may be
 * overwritten with any value at any time (there is no transition graph).
 */
module Tasks {

  /** The lifecycle state of a task; a new task starts in `ToDo`. */
  datatype TaskStatus = ToDo | InProgress | Done

  /** The value of a task at one moment: what a copy of it would hold. */
  datatype TaskValue = TaskValue(name: string, status: TaskStatus)

  class Task {
    const name: string
    var status: TaskStatus

    /** A task created from a name alone starts as `ToDo`. */
    constructor (name: string)
      ensures this.name == name && status == ToDo
    {
      this.name := name;
      status := ToDo;
    }

    /** The implicit member-wise copy that a by-value container makes. */
    constructor Copy(other: Task)
      ensures name == other.name && status == other.status
    {
      name := other.name;
      status := other.status;
    }

    method Complete()
      modifies this
      ensures status == Done
    {
      status := Done;
    }

    method Uncomplete()
      modifies this
      ensures status == ToDo
    {
      status := ToDo;
    }

    method StartProgress()
      modifies this
      ensures status == InProgress
    {
      status := InProgress;
    }

    /** The name given at construction. */
    function GetName(): (r: string)
      ensures r == name
    {
      name
    }

    /** The status most recently set. */
    function GetStatus(): (r: TaskStatus)
      reads this
      ensures r == status
    {
      status
    }

    /** The current value of this task. */
    function Value(): (v: TaskValue)
      reads this
    {
      TaskValue(name, status)
    }
  }
}
