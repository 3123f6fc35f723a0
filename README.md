# To-do list: a verified model

This project models a small in-memory task tracker written in C++. It has two parts.

- A **task** has a name with no setter and a status: to-do, in progress or done. A new task is to-do. The three setters overwrite the status whatever it was before.
- A **to-do list** keeps its tasks in insertion order and allows duplicate names. It can:
  - append a copy of a task;
  - remove *every* task with a given name, keeping the others in order;
  - look up the *first* task with a given name;
  - set the status of that first task. A missing name is a silent no-op.

The Dafny follows the source's shape:

- `Tasks.Task` is a class with a `const` name and a mutable `status`. Its setters are methods that modify the object.
- `ToDoLists.ToDoList` owns a `seq<Task>` of distinct `Task` objects. `Valid()` states the ownership: every element is in `Repr` and no object appears twice. So changing one element's status cannot change another.
- `AddTask` stores a fresh copy, as `push_back` copies its argument.
- `GetTask` is the linear scan with an early return. It hands back the position of the first match (`Option<nat>`) instead of a pointer.
- The three mutators look the name up and then call the setter on that element.
- `GetName` and `GetStatus` are plain field reads.
- The meaning of every list operation is stated on the list's value, a `seq<TaskValue>` given by `GetTasks()`. The module `TaskSeq` defines that meaning as pure functions and proves its properties:
  - `FindFirst` is first-match lookup.
  - `Without` is removal of all matches.
  - `SetFirstStatus` changes the status of the first match only.

## Model

| member | source | states |
|---|---|---|
| `Tasks.Task.constructor` | toDoListApp.cpp:17 | a new task has the given name and status to-do |
| `Tasks.Task.Copy` | toDoListApp.cpp:52-55 | the copy made when a task is stored has the same name and status as the original |
| `Tasks.Task.GetName` | toDoListApp.cpp:34-37 | returns the name given at construction |
| `Tasks.Task.GetStatus` | toDoListApp.cpp:39-42 | returns the current status |
| `Tasks.Task.Complete` | toDoListApp.cpp:19-22 | status becomes done whatever it was; the name is left as it was |
| `Tasks.Task.Uncomplete` | toDoListApp.cpp:24-27 | status becomes to-do whatever it was |
| `Tasks.Task.StartProgress` | toDoListApp.cpp:29-32 | status becomes in-progress whatever it was |
| `TaskSeq.Count` | toDoListApp.cpp:57-63 | the number of tasks with a name is at most the length |
| `TaskSeq.CountZero` | toDoListApp.cpp:57-63 | the number of tasks with a name is zero exactly when no task has that name |
| `TaskSeq.CountAppend` | toDoListApp.cpp:57-63 | the number of tasks with a name in two lists joined is the sum of the two counts |
| `TaskSeq.FindFirst` | toDoListApp.cpp:65-75 | a found position holds a task with the name and every earlier task has another name; not-found exactly when no task has the name |
| `TaskSeq.WithoutAbsent` | toDoListApp.cpp:57-63 | after removal no task with the name remains |
| `TaskSeq.WithoutUnchanged` | toDoListApp.cpp:57-63 | removing a name no task has leaves the list unchanged |
| `TaskSeq.WithoutLength` | toDoListApp.cpp:57-63 | removal shortens the list by exactly the number of tasks with the name |
| `TaskSeq.WithoutCons` | toDoListApp.cpp:59-61 | removal keeps the first task exactly when its name differs, then filters the rest |
| `TaskSeq.WithoutAppend` | toDoListApp.cpp:57-63 | removal distributes over concatenation, so survivors keep their relative order |
| `TaskSeq.WithoutSnoc` | toDoListApp.cpp:59-61 | filtering a prefix one task longer keeps that task exactly when its name differs, which is one step of the `remove_if` scan |
| `TaskSeq.WithoutMultiset` | toDoListApp.cpp:57-63 | removal drops every copy of each task with the name and keeps every other task with its multiplicity |
| `TaskSeq.RemovedNotFound` | toDoListApp.cpp:57-75 | after removing a name, looking it up finds nothing |
| `TaskSeq.RemoveIdempotent` | toDoListApp.cpp:57-63 | removing a name twice gives the same list as removing it once |
| `TaskSeq.FindFirstAppend` | toDoListApp.cpp:52-75 | appending a task never changes what an existing name finds; a new name is found at the new last position |
| `TaskSeq.SetFirstStatus` | toDoListApp.cpp:77-102 | length and all names are kept; the first task with the name gets the new status; every other task is unchanged; with no match the list is unchanged |
| `TaskSeq.SetFirstStatusLastWins` | toDoListApp.cpp:77-102 | two status changes by the same name leave only the last status |
| `TaskSeq.SetFirstStatusIdempotent` | toDoListApp.cpp:77-102 | completing (or resetting, or starting) the same name twice equals doing it once |
| `ToDoLists.Survivors` | toDoListApp.cpp:59-61 | the scan of `remove_if` yields the values filtered to other names, in order; the survivors are the original objects, still distinct |
| `ToDoLists.ToDoList.GetTasks` | toDoListApp.cpp:104-107 | the view lists the current value of every owned task, in insertion order |
| `ToDoLists.ToDoList.constructor` | toDoListApp.cpp:109-110 | a new list is empty |
| `ToDoLists.ToDoList.AddTask` | toDoListApp.cpp:52-55 | the list grows by one, the new value is last, earlier tasks are unchanged |
| `ToDoLists.ToDoList.RemoveTask` | toDoListApp.cpp:57-63 | the new list is the old one without every task of that name, and looking the name up then finds nothing |
| `ToDoLists.ToDoList.GetTask` | toDoListApp.cpp:65-75 | returns the position of the first task with the name, or not-found exactly when none has it |
| `ToDoLists.ToDoList.CompleteTask` | toDoListApp.cpp:77-84 | only the first task with the name becomes done; a missing name leaves the list unchanged |
| `ToDoLists.ToDoList.UncompleteTask` | toDoListApp.cpp:86-93 | only the first task with the name becomes to-do; a missing name leaves the list unchanged |
| `ToDoLists.ToDoList.StartProgress` | toDoListApp.cpp:95-102 | only the first task with the name becomes in-progress; a missing name leaves the list unchanged |
| `SelfCheck.SetTask1` | toDoListApp.cpp:125-132 | in the scenario's two-task list, each status change of "Task 1" changes only its first row |
| `SelfCheck.FindTask1` | toDoListApp.cpp:126-132 | in the scenario's list, "Task 1" is found at the first position whatever its status |
| `SelfCheck.RemoveTask1` | toDoListApp.cpp:134-135 | removing "Task 1" from the scenario's list leaves only "Task 2", still to-do |
| `SelfCheck.StatusOf` | toDoListApp.cpp:126 | `getTask(name)->getStatus()` on a name the list holds yields the status of the first task with that name |
| `SelfCheck.Transition` | toDoListApp.cpp:125-132 | one checkpoint: after the mutator for a status is applied to "Task 1", the list holds "Task 1" with that status, and reading it back gives that status |
| `SelfCheck.RunTests` | toDoListApp.cpp:113-136 | the scenario's checkpoints: size 2 after two additions; in-progress, then done, then to-do for "Task 1"; size 1 after its removal |

## Left out

- `main` and its success message (toDoListApp.cpp:138-143): console output with no logic.
- The `assert` calls in the self-check stop the process when they fail. Here they are proved instead: they become `RunTests`'s postconditions. The scenario also asserts that "Task 1" is no longer found and that "Task 2" is still present as to-do.
- `getTask` returns a raw pointer into the vector. That pointer is valid only until the next change to the list. The model returns a position (`Option<nat>`) instead, and does not model the pointer becoming invalid.
- `std::remove_if` compacts the vector in place by move-assigning survivors forward. The model collects the surviving objects in a scan (`Survivors`), then replaces the field. Which memory slot holds which survivor is not modelled. Only the resulting order and contents are.
- Whole-task assignment is not modelled. In C++, `Task` has an implicit assignment operator, so `*p = Task("b")` through the pointer `getTask` returns would replace a stored task's name as well as its status. In the model the name is a `const` field, and only the status can change after construction.
- `std::string` is `seq<char>` compared by equality. Copying a task models the compiler-generated copy constructor. Allocation failure in `push_back` is not modelled.
