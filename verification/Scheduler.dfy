/** kernel/kernel.c as the kernel runs it: tasks linked in a circle through `next`. */
module Scheduler {
  import opened TaskRing

  const RUNNING := 0
  const READY := 1

  class Task {
    var id: nat
    var state: nat
    var next: Task?

    constructor (id: nat, state: nat)
      ensures this.id == id && this.state == state && next == null
    {
      this.id, this.state, next := id, state, null;
    }
  }

  class Kernel {
    var currentTask: Task?
    var taskQueue: Task?
    var nextTaskId: nat
    var active: bool
    ghost var ring: seq<Task>   // from `taskQueue`, in link order
    ghost var model: Ring

    /** One cycle through all linked tasks: link i leads to task i + 1, the last one to the head. */
    ghost predicate Linked()
      reads this, ring
    {
      && |ring| == |model.ids| && IsRing(model)
      && (forall i, j | 0 <= i < j < |ring| :: ring[i] != ring[j])
      && (forall i | 0 <= i < |ring| :: ring[i].id == model.ids[i])
      && (forall i | 0 <= i < |ring| - 1 :: ring[i].next == ring[i + 1])
      && ring[|ring| - 1].next == ring[0]
      && taskQueue == ring[0] && currentTask == ring[model.cur]
    }

    ghost predicate Valid()
      reads this, ring
    {
      if active then Linked() && nextTaskId == |ring| + 1
      else currentTask == null && taskQueue == null && nextTaskId == 1
    }

    constructor ()
      ensures Valid() && !active
    {
      currentTask, taskQueue, nextTaskId, active := null, null, 1, false;
      ring, model := [], Start;
    }

    /** `hasMemory` says whether the allocation of the task succeeds. */
    method InitScheduler(hasMemory: bool)
      requires Valid() && !active
      modifies this
      ensures Valid() && active == hasMemory
      ensures active ==> model == Start && fresh(ring)
    {
      if hasMemory {
        var task := new Task(nextTaskId, RUNNING);
        currentTask := task;
        nextTaskId := nextTaskId + 1;
        currentTask.next := currentTask;
        taskQueue := currentTask;
        active := true;
        ring, model := [task], Start;
      }
    }

    /** The pointer part of `timer_callback`. */
    method Tick()
      requires active ==> Linked()
      modifies this`currentTask, this`model
      ensures active ==> Linked() && model == TickStep(old(model))
      ensures !active ==> currentTask == old(currentTask) && model == old(model)
    {
      assert active ==> model.cur + 1 < |ring| ==> ring[model.cur].next == ring[model.cur + 1];
      if active && currentTask != null && currentTask.next != null {
        currentTask := currentTask.next;
        model := TickStep(model);
      }
    }

    method Ticks(n: nat)
      requires active && Linked()
      modifies this`currentTask, this`model
      ensures Linked() && model == Run(old(model), OnlyTicks(n))
    {
      for k := 0 to n
        invariant Linked()
        invariant Run(model, OnlyTicks(n - k)) == Run(old(model), OnlyTicks(n))
      {
        assert OnlyTicks(n - k)[1..] == OnlyTicks(n - k - 1);
        Tick();
      }
    }

    /** `create_task`, with timer ticks firing before the first link store and between the two. The new
        task joins the ring at the second store, so the effect is that of all the ticks, then the create.
        `task_queue` is never null while the scheduler is active, so its other branch is dead. */
    method CreateTask(hasMemory: bool, before: nat, between: nat) returns (id: nat)
      requires Valid()
      modifies this, ring
      ensures Valid() && active == old(active)
      ensures !(active && hasMemory) ==> id == 0 && model == old(model) && ring == old(ring)
      ensures active && hasMemory ==>
        && id == |old(ring)| + 1
        && model == CreateStep(Run(Run(old(model), OnlyTicks(before)), OnlyTicks(between)), id)
        && |ring| == |old(ring)| + 1 && ring[0] == old(ring)[0] && fresh(ring[1])
        && ring[2..] == old(ring)[1..]
    {
      if !active || !hasMemory {
        return 0;
      }
      var newTask := new Task(nextTaskId, READY);
      nextTaskId := nextTaskId + 1;
      id := newTask.id;
      InsertAfterHead(newTask, before, between);
    }

    /** The two link stores. */
    method InsertAfterHead(newTask: Task, before: nat, between: nat)
      requires active && Linked() && newTask !in ring
      modifies this`currentTask, this`ring, this`model, ring, newTask
      ensures Linked() && newTask.id == old(newTask.id)
      ensures model == CreateStep(Run(Run(old(model), OnlyTicks(before)), OnlyTicks(between)), newTask.id)
      ensures ring == old(ring)[..1] + [newTask] + old(ring)[1..]
    {
      Ticks(before);
      newTask.next := taskQueue.next;
      assert Linked();
      Ticks(between);
      LinkAfterHead(newTask);
    }

    /** The second link store, which makes the new task part of the ring. */
    method LinkAfterHead(newTask: Task)
      requires Linked() && newTask !in ring && newTask.next == ring[0].next
      modifies this`ring, this`model, ring
      ensures Linked() && newTask.id == old(newTask.id)
      ensures model == CreateStep(old(model), newTask.id)
      ensures ring == old(ring)[..1] + [newTask] + old(ring)[1..]
    {
      ghost var was := ring;
      taskQueue.next := newTask;
      ring := was[..1] + [newTask] + was[1..];
      model := CreateStep(model, newTask.id);
      assert ring[0] == was[0] && ring[1] == newTask;
      assert forall i | 2 <= i < |ring| :: ring[i] == was[i - 1];
      forall i | 0 <= i < |ring| - 1
        ensures ring[i].next == ring[i + 1]
      {
        if i == 1 {
          assert was[0] != was[1];
        } else if i > 1 {
          assert was[i - 1].next == was[i] && was[0] != was[i - 1];
        }
      }
      assert ring[|ring| - 1].next == ring[0];
    }
  }
}
