/**
 * The task containers of asd_lab_6_task.c: a circular-array queue and an
 * array stack of tasks, each with MAX_TASKS slots. The simulation loop that
 * drives them is not part of this model.
 */
module TaskSystem {

  const MAX_TASKS: int := 100

  datatype ErrorCode = Success | QueueFull | QueueEmpty | StackFull | StackEmpty

  /** A task: its name and its remaining processing time. */
  datatype Task = Task(name: string, time: int)

  /** An index below 2 * MAX_TASKS brought back into the array: the `% MAX_TASKS` of the C code on that range. */
  function Wrap(x: int): (r: int)
    requires 0 <= x < 2 * MAX_TASKS
    ensures 0 <= r < MAX_TASKS
  {
    if x < MAX_TASKS then x else x - MAX_TASKS
  }

  /** On that range Wrap is the `% MAX_TASKS` of the C code. */
  lemma WrapIsMod(x: int)
    requires 0 <= x < 2 * MAX_TASKS
    ensures Wrap(x) == x % MAX_TASKS
  {
  }

  class TaskQueue {
    var tasks: array<Task>
    var first: int
    var last: int
    var size: int
    /** The queued tasks, front first. */
    ghost var Elements: seq<Task>

    ghost predicate Valid()
      reads this, tasks
    {
      && tasks.Length == MAX_TASKS
      && 0 <= first < MAX_TASKS && -1 <= last < MAX_TASKS
      && 0 <= size <= MAX_TASKS
      && Wrap(first + size) == Wrap(last + 1)
      && |Elements| == size
      && forall i :: 0 <= i < size ==> Elements[i] == tasks[Wrap(first + i)]
    }

    /** initQueue: first = 0, last = -1, size = 0. */
    constructor ()
      ensures Valid() && fresh(tasks)
      ensures first == 0 && last == -1 && size == 0 && Elements == []
    {
      tasks := new Task[MAX_TASKS](_ => Task("", 0));
      first, last, size := 0, -1, 0;
      Elements := [];
    }

    /** isQueueEmpty: size == 0. */
    predicate IsEmpty()
      reads this, tasks
      requires Valid()
      ensures IsEmpty() <==> Elements == []
    {
      size == 0
    }

    /** isQueueFull: size == MAX_TASKS. */
    predicate IsFull()
      reads this, tasks
      requires Valid()
      ensures IsFull() <==> |Elements| == MAX_TASKS
    {
      size == MAX_TASKS
    }

    /** queueAddTask: QUEUE_FULL when full, otherwise store at (last + 1) % MAX_TASKS. */
    method AddTask(task: Task) returns (err: ErrorCode)
      requires Valid()
      modifies this, tasks
      ensures Valid() && tasks == old(tasks)
      ensures err == (if old(size) == MAX_TASKS then QueueFull else Success)
      ensures err == QueueFull ==> Elements == old(Elements) && size == old(size)
      ensures err == Success ==> size == old(size) + 1 && last == (old(last) + 1) % MAX_TASKS
      ensures err == Success ==> Elements == old(Elements) + [task]
    {
      if size == MAX_TASKS {
        return QueueFull;
      }
      WrapIsMod(last + 1);
      last := (last + 1) % MAX_TASKS;
      assert last == Wrap(first + size);
      tasks[last] := task;
      size := size + 1;
      Elements := Elements + [task];
      err := Success;
    }

    /**
     * queueRemoveTask: QUEUE_EMPTY when empty, otherwise the task at `first`,
     * and `first` moves on modulo MAX_TASKS. `prev` is the caller's variable,
     * left as it was on error.
     */
    method RemoveTask(prev: Task) returns (err: ErrorCode, task: Task)
      requires Valid()
      modifies this
      ensures Valid() && tasks == old(tasks)
      ensures err == (if old(size) == 0 then QueueEmpty else Success)
      ensures err == QueueEmpty ==> task == prev && Elements == old(Elements)
      ensures err == Success ==> task == old(Elements)[0] && Elements == old(Elements)[1..]
      ensures err == Success ==> size == old(size) - 1 && first == (old(first) + 1) % MAX_TASKS
    {
      if size == 0 {
        return QueueEmpty, prev;
      }
      assert Elements[0] == tasks[Wrap(first)];
      WrapIsMod(first + 1);
      task := tasks[first];
      first := (first + 1) % MAX_TASKS;
      size := size - 1;
      Elements := Elements[1..];
      err := Success;
    }
  }

  class TaskStack {
    var tasks: array<Task>
    var top: int

    ghost predicate Valid()
      reads this
    {
      tasks.Length == MAX_TASKS && -1 <= top <= MAX_TASKS - 1
    }

    /** The stored tasks from bottom to top. */
    ghost function Contents(): (s: seq<Task>)
      reads this, tasks
      requires Valid()
      ensures |s| == top + 1
    {
      tasks[..top + 1]
    }

    /** initStack: top = -1. */
    constructor ()
      ensures Valid() && fresh(tasks)
      ensures top == -1 && Contents() == []
    {
      tasks := new Task[MAX_TASKS](_ => Task("", 0));
      top := -1;
    }

    /** isStackEmpty: top == -1. */
    predicate IsEmpty()
      reads this, tasks
      requires Valid()
      ensures IsEmpty() <==> Contents() == []
    {
      top == -1
    }

    /** isStackFull: top == MAX_TASKS - 1. */
    predicate IsFull()
      reads this, tasks
      requires Valid()
      ensures IsFull() <==> |Contents()| == MAX_TASKS
    {
      top == MAX_TASKS - 1
    }

    /** stackPush: STACK_FULL on a full stack, otherwise `tasks[++top] = task`. */
    method Push(task: Task) returns (err: ErrorCode)
      requires Valid()
      modifies this, tasks
      ensures Valid() && tasks == old(tasks)
      ensures err == (if old(top) == MAX_TASKS - 1 then StackFull else Success)
      ensures err == StackFull ==> top == old(top) && Contents() == old(Contents())
      ensures err == Success ==> top == old(top) + 1 && Contents() == old(Contents()) + [task]
    {
      if top == MAX_TASKS - 1 {
        return StackFull;
      }
      top := top + 1;
      tasks[top] := task;
      err := Success;
    }

    /** stackPop: STACK_EMPTY on an empty stack, otherwise `*task = tasks[top--]`. */
    method Pop(prev: Task) returns (err: ErrorCode, task: Task)
      requires Valid()
      modifies this
      ensures Valid() && tasks == old(tasks)
      ensures err == (if old(top) == -1 then StackEmpty else Success)
      ensures err == StackEmpty ==> task == prev && top == old(top)
      ensures err == Success ==> top == old(top) - 1
      ensures err == Success ==> task == old(Contents())[|old(Contents())| - 1]
      ensures err == Success ==> Contents() == old(Contents())[..|old(Contents())| - 1]
    {
      if top == -1 {
        return StackEmpty, prev;
      }
      task := tasks[top];
      top := top - 1;
      err := Success;
    }
  }

  /** The twelve tasks of the loader: T1 .. T12 with their processing times. */
  function DemoTasks(): (ts: seq<Task>)
    ensures |ts| == 12
  {
    [Task("T1", 3), Task("T2", 5), Task("T3", 2), Task("T4", 4), Task("T5", 6),
     Task("T6", 3), Task("T7", 7), Task("T8", 2), Task("T9", 1), Task("T10", 4),
     Task("T11", 3), Task("T12", 5)]
  }

  /**
   * main, before the simulation: T1 .. T6 are added to F1 and T7 .. T12 to F2,
   * each in order; the stack starts empty.
   */
  method LoadTasks() returns (f1: TaskQueue, f2: TaskQueue, s: TaskStack)
    ensures f1.Valid() && f2.Valid() && s.Valid()
    ensures f1.Elements == DemoTasks()[..6] && f2.Elements == DemoTasks()[6..]
    ensures s.Contents() == []
  {
    var tasks := DemoTasks();
    f1 := new TaskQueue();
    f2 := new TaskQueue();
    s := new TaskStack();
    AddAll(f1, tasks, 0, 6);
    AddAll(f2, tasks, 6, 12);
  }

  /** One of main's loading loops: tasks[from..to] added to `q` one after another. */
  method AddAll(q: TaskQueue, tasks: seq<Task>, from: nat, to: nat)
    requires q.Valid() && from <= to <= |tasks| && |q.Elements| + (to - from) <= MAX_TASKS
    modifies q, q.tasks
    ensures q.Valid() && q.tasks == old(q.tasks)
    ensures q.Elements == old(q.Elements) + tasks[from..to]
  {
    var i := from;
    while i < to
      invariant from <= i <= to
      invariant q.Valid() && q.tasks == old(q.tasks)
      invariant q.Elements == old(q.Elements) + tasks[from..i]
    {
      var err := q.AddTask(tasks[i]);
      assert tasks[from..i + 1] == tasks[from..i] + [tasks[i]];
      i := i + 1;
    }
  }
}
