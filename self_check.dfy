/**
 * The program's self-check: two tasks are added, the first is walked through
 * every status, then removed.
 */
module SelfCheck {
  import opened Wrappers
  import opened Tasks
  import opened TaskSeq
  import opened ToDoLists

  /** The list's value during the scenario: "Task 1" with status `st`, then "Task 2" as to-do. */
  function Row(st: TaskStatus): (r: seq<TaskValue>)
  {
    [TaskValue("Task 1", st), TaskValue("Task 2", ToDo)]
  }

  /** Any status change of "Task 1" in the scenario touches the first row only. */
  lemma SetTask1(a: TaskStatus, b: TaskStatus)
    ensures SetFirstStatus(Row(a), "Task 1", b) == Row(b)
  {
    assert IsFirstMatch(Row(a), "Task 1", 0);
  }

  /** "Task 1" is found in the first row, whatever its status. */
  lemma FindTask1(st: TaskStatus)
    ensures FindFirst(Row(st), "Task 1") == Some(0)
  {
    assert IsFirstMatch(Row(st), "Task 1", 0);
  }

  /** Removing "Task 1" leaves only "Task 2", untouched. */
  lemma RemoveTask1(st: TaskStatus)
    ensures Without(Row(st), "Task 1") == [TaskValue("Task 2", ToDo)]
  {
    assert "Task 2" != "Task 1" by { assert "Task 2"[5] != "Task 1"[5]; }
    assert Row(st)[1..] == [TaskValue("Task 2", ToDo)];
  }

  /** `getTask(name)->getStatus()` on a name the list holds: the status of its first task. */
  method StatusOf(todo: ToDoList, name: string) returns (st: TaskStatus)
    requires todo.Valid() && !Absent(todo.GetTasks(), name)
    ensures IsFirstMatch(todo.GetTasks(), name, FindFirst(todo.GetTasks(), name).value)
    ensures st == todo.GetTasks()[FindFirst(todo.GetTasks(), name).value].status
  {
    var found := todo.GetTask(name);
    st := todo.tasks[found.value].GetStatus();
  }

  /**
   * One checkpoint of the scenario: the mutator for status `b` is applied to
   * "Task 1", whose status was `a`, and the status is read back through the lookup.
   */
  method Transition(todo: ToDoList, a: TaskStatus, b: TaskStatus) returns (seen: TaskStatus)
    requires todo.Valid() && todo.GetTasks() == Row(a)
    modifies todo.Repr
    ensures todo.Valid() && todo.Repr == old(todo.Repr)
    ensures todo.GetTasks() == Row(b)
    ensures seen == b
  {
    SetTask1(a, b);
    match b {
      case InProgress => todo.StartProgress("Task 1");
      case Done => todo.CompleteTask("Task 1");
      case ToDo => todo.UncompleteTask("Task 1");
    }
    FindTask1(b);
    seen := StatusOf(todo, "Task 1");
  }

  /**
   * Runs the scenario and reports what it observes at each checkpoint: the
   * list size after the two additions, the status of "Task 1" after each
   * transition, and the size after "Task 1" is removed.
   */
  method RunTests()
    returns (sizeAfterAdds: nat, afterStart: TaskStatus, afterComplete: TaskStatus,
             afterUncomplete: TaskStatus, sizeAfterRemove: nat)
    ensures sizeAfterAdds == 2
    ensures afterStart == InProgress && afterComplete == Done && afterUncomplete == ToDo
    ensures sizeAfterRemove == 1
  {
    var todo := new ToDoList();
    var task1 := new Task("Task 1");
    var task2 := new Task("Task 2");

    todo.AddTask(task1);
    todo.AddTask(task2);
    assert todo.GetTasks() == Row(ToDo);
    sizeAfterAdds := |todo.GetTasks()|;

    afterStart := Transition(todo, ToDo, InProgress);
    afterComplete := Transition(todo, InProgress, Done);
    afterUncomplete := Transition(todo, Done, ToDo);

    RemoveTask1(ToDo);
    todo.RemoveTask("Task 1");
    assert todo.GetTasks() == [TaskValue("Task 2", ToDo)];
    sizeAfterRemove := |todo.GetTasks()|;

    // Beyond the scenario's own checkpoints: the removed name is gone and the other task is untouched.
    var found := todo.GetTask("Task 1");
    assert found == None;
    assert IsFirstMatch(todo.GetTasks(), "Task 2", 0);
    found := todo.GetTask("Task 2");
    assert found == Some(0) && todo.GetTasks()[0] == TaskValue("Task 2", ToDo);
  }
}
