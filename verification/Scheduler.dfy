/**
 * The cooperative scheduler (kernel/sched/scheduler.cpp, kernel/sched/task.cpp) with its interrupt discipline
 * (kernel/x86/src/irq.cpp, kernel/threading/src/lock.cpp).
 */
module Scheduling {
  import opened Rings
  import opened RoundRobin

  /** The CPU's interrupt flag and the kernel's own copy of it. */
  class Interrupts {
    var hardware: bool
    var software: bool
    var panicked: bool

    constructor (enabled: bool)
      ensures hardware == software == enabled && !panicked
    {
      hardware, software, panicked := enabled, enabled, false;
    }

    ghost predicate Synced()
      reads this
    {
      hardware == software
    }

    /** Both flags have the value `e` and no panic has happened. */
    ghost predicate Is(e: bool)
      reads this
    {
      hardware == e && software == e && !panicked
    }

    /** Read the flag; panics if the two copies disagree. */
    method IsEnabled() returns (e: bool)
      modifies this`panicked
      ensures e == software && panicked == (old(panicked) || hardware != software)
    {
      if hardware != software {
        panicked := true;
      }
      return software;
    }

    method Enable()
      modifies this`hardware, this`software
      ensures hardware && software
    {
      software := true;
      hardware := true;
    }

    method Disable() returns (was: bool)
      modifies this`hardware, this`software
      ensures !hardware && !software && was == old(software)
    {
      hardware := false;
      was := software;
      software := false;
    }

    /** Unlocking enables interrupts only if they were enabled when the lock was taken. */
    method Unlock(enableOnUnlock: bool)
      modifies this`hardware, this`software
      ensures hardware == (enableOnUnlock || old(hardware)) && software == (enableOnUnlock || old(software))
    {
      if enableOnUnlock {
        Enable();
      }
    }
  }

  /** What a task does while it runs: create tasks, also inside sections locked against interrupts. */
  datatype Action = Create | Locked(body: seq<Action>)

  /** One run of a task, which ends in a yield or in its exit. */
  datatype Turn = Turn(actions: seq<Action>, exits: bool)

  /** How many tasks are created by the actions, in locked sections too. */
  ghost function Creates(actions: seq<Action>): nat {
    if actions == [] then 0
    else
      var first := match actions[0] case Create => 1 case Locked(body) => Creates(body);
      Creates(actions[1..]) + first
  }

  /** Interrupt flags that the created tasks get, the last created task first: none in a locked section. */
  ghost function Flags(actions: seq<Action>, enabled: bool): seq<bool>
    decreases actions, 1
  {
    if actions == [] then [] else Flags(actions[1..], enabled) + FirstFlags(actions, enabled)
  }

  /** Those of the first action. */
  ghost function FirstFlags(actions: seq<Action>, enabled: bool): seq<bool>
    requires actions != []
    decreases actions, 0
  {
    match actions[0]
    case Create => [enabled]
    case Locked(body) => Flags(body, false)
  }

  lemma FlagsFirst(actions: seq<Action>, enabled: bool)
    requires actions != []
    ensures Flags(actions, enabled) == Flags(actions[1..], enabled) + FirstFlags(actions, enabled)
  {
  }

  lemma {:induction false} FlagsCount(actions: seq<Action>, enabled: bool)
    ensures |Flags(actions, enabled)| == Creates(actions)
  {
    if actions != [] {
      FlagsCount(actions[1..], enabled);
      match actions[0]
      case Create =>
      case Locked(body) => FlagsCount(body, false);
    }
  }

  /** The tasks carry these flags. */
  ghost predicate Carrying(tasks: seq<Task>, flags: seq<bool>)
    reads tasks`savedFlag
  {
    |tasks| == |flags| && forall k :: 0 <= k < |tasks| ==> tasks[k].savedFlag == flags[k]
  }

  lemma NotAmong(tasks: seq<Task>, task: Task)
    requires task !in Members(tasks)
    ensures task !in tasks
  {
  }

  lemma CarryingConcat(a: seq<Task>, b: seq<Task>, flags: seq<bool>, more: seq<bool>)
    requires Carrying(a, flags) && Carrying(b, more)
    ensures Carrying(a + b, flags + more)
  {
  }

  /** How many tasks are created in the first `m` turns of a pass. */
  ghost function CreatedBy(turns: nat -> Turn, m: nat): nat {
    if m == 0 then 0 else CreatedBy(turns, m - 1) + Creates(turns(m - 1).actions)
  }

  /** A ring of the scheduler's own task and the main one. */
  method FirstTasks(flag: bool) returns (ring: TaskRing, first: Task)
    ensures fresh(ring) && fresh(ring.Nodes) && ring.Valid() && |ring.Order| == 2 && ring.Order[0] == first
    ensures forall t :: t in ring.Nodes ==> !t.exited && !t.started && t.savedFlag == flag
  {
    hide Linked;
    ring := new TaskRing();
    first := new Task(flag);
    ring.Insert(first);
    var main := new Task(flag);
    ring.Insert(main);
  }

  class Scheduler {
    const irq: Interrupts
    const tasks: TaskRing
    const schedulerTask: Task
    var finishedTasks: seq<Task>
    var current: Task
    /** Every task that was ever switched to, other than the scheduler's own. */
    ghost var switched: seq<Task>
    ghost var deleted: set<Task>

    /** The scheduler's own task comes first into the ring, then the main one; both under the lock. */
    constructor (irq: Interrupts)
      modifies irq`hardware, irq`software
      ensures this.irq == irq && RingValid() && fresh(tasks) && |tasks.Order| == 2
      ensures current == schedulerTask && finishedTasks == []
      ensures forall t :: t in tasks.Nodes ==> !t.exited && !t.started && !t.savedFlag
      ensures irq.hardware == irq.software == old(irq.software)
      ensures old(irq.Is(true)) ==> Valid()
      ensures switched == [] && deleted == {} && forall t :: t in tasks.Nodes ==> fresh(t)
    {
      var enableOnUnlock := irq.Disable();
      var ring, first := FirstTasks(irq.hardware);
      this.irq, tasks, schedulerTask, current := irq, ring, first, first;
      finishedTasks := [];
      switched, deleted := [], {};
      irq.Unlock(enableOnUnlock);
    }

    /** The scheduler's own task is where the ring starts. */
    ghost predicate RingValid()
      reads this`deleted, tasks, tasks.Nodes`next, tasks.Nodes`prev
    {
      && tasks.Valid()
      && |tasks.Order| > 0
      && tasks.Order[0] == schedulerTask
      && tasks.Nodes !! deleted
    }

    /** Between passes nothing is finished and interrupts are enabled. */
    ghost predicate Valid()
      reads this, irq, tasks, tasks.Nodes
    {
      && RingValid()
      && current == schedulerTask
      && finishedTasks == []
      && irq.Is(true)
      && forall t :: t in tasks.Nodes ==> !t.exited
    }

    /** The ring behind the scheduler's task. */
    ghost function Others(): seq<Task>
      reads tasks
    {
      if tasks.Order == [] then [] else tasks.Order[1..]
    }

    method CreateTask() returns (task: Task)
      requires RingValid()
      modifies tasks, tasks.Nodes`next, tasks.Nodes`prev
      ensures RingValid() && fresh(task)
      ensures Others() == [task] + old(Others()) && tasks.Nodes == old(tasks.Nodes) + {task}
      ensures !task.exited && !task.started && task.savedFlag == irq.hardware
    {
      task := new Task(irq.hardware);
      tasks.Insert(task);
    }

    /** Whatever a task does, the tasks it creates stand in front and interrupts are as they were. */
    method Act(actions: seq<Action>) returns (ghost created: seq<Task>)
      requires RingValid() && irq.Synced()
      modifies tasks, tasks.Nodes`next, tasks.Nodes`prev, irq`hardware, irq`software
      ensures RingValid() && Others() == created + old(Others())
      ensures irq.hardware == old(irq.hardware) && irq.software == old(irq.software)
      ensures fresh(tasks.Nodes - old(tasks.Nodes)) && old(tasks.Nodes) <= tasks.Nodes
      ensures forall t :: t in tasks.Nodes - old(tasks.Nodes) ==> !t.exited
      ensures Members(created) == tasks.Nodes - old(tasks.Nodes)
      ensures |created| == Creates(actions) && Carrying(created, Flags(actions, irq.hardware))
      decreases actions, 1
    {
      if actions == [] {
        return [];
      }
      created := ActFirst(actions);
      ghost var flags := FirstFlags(actions, irq.hardware);
      hide RingValid, Others, Members, Flags, FirstFlags, Carrying;
      FlagsFirst(actions, irq.hardware);
      FlagsCount(actions, irq.hardware);
      FlagsCount(actions[1..], irq.hardware);
      ghost var more := Act(actions[1..]);
      CarryingConcat(more, created, Flags(actions[1..], irq.hardware), flags);
      MembersConcat(more, created);
      ConcatAssoc(more, created, old(Others()));
      created := more + created;
    }

    /** The first action: create a task, or act in a locked section. */
    method ActFirst(actions: seq<Action>) returns (ghost created: seq<Task>)
      requires RingValid() && irq.Synced() && actions != []
      modifies tasks, tasks.Nodes`next, tasks.Nodes`prev, irq`hardware, irq`software
      ensures RingValid() && Others() == created + old(Others())
      ensures irq.hardware == old(irq.hardware) && irq.software == old(irq.software)
      ensures fresh(tasks.Nodes - old(tasks.Nodes)) && old(tasks.Nodes) <= tasks.Nodes
      ensures forall t :: t in tasks.Nodes - old(tasks.Nodes) ==> !t.exited
      ensures Members(created) == tasks.Nodes - old(tasks.Nodes)
      ensures |created| == |FirstFlags(actions, irq.hardware)| && Carrying(created, FirstFlags(actions, irq.hardware))
      decreases actions, 0
    {
      match actions[0]
      case Create =>
        var task := CreateTask();
        created := [task];
      case Locked(body) =>
        var was := irq.Disable();
        created := Act(body);
        irq.Unlock(was);
    }

    /**
     * Leave the current task for another: flags go to the one's stack and come from the other's. The log is of the
     * values that `current` takes, apart from the scheduler's own task.
     */
    method SwitchContext(task: Task)
      modifies this`current, this`switched, irq, current`savedFlag
      ensures current == task && !irq.software && !old(current).savedFlag
      ensures switched == if task == schedulerTask then old(switched) else old(switched) + [task]
      ensures irq.hardware == (task != old(current) && old(task.savedFlag))
      ensures irq.panicked <==> old(irq.panicked) || !old(irq.hardware) || !old(irq.software)
    {
      var enabled := irq.IsEnabled();
      if !enabled {
        irq.panicked := true;
      }
      var _ := irq.Disable();
      var prev := current;
      current := task;
      switched := if current == schedulerTask then switched else switched + [current];
      prev.savedFlag := irq.hardware;
      irq.hardware := task.savedFlag;
    }

    /** The list of finished tasks changes with interrupts disabled only. */
    method PushFinished(task: Task)
      requires !irq.hardware && !irq.software
      modifies this`finishedTasks
      ensures finishedTasks == [task] + old(finishedTasks)
    {
      finishedTasks := [task] + finishedTasks;
    }

    method HandleExit(task: Task)
      modifies this`finishedTasks, irq`hardware, irq`software
      requires irq.Synced()
      ensures finishedTasks == [task] + old(finishedTasks)
      ensures irq.hardware == old(irq.hardware) && irq.software == old(irq.software)
    {
      var was := irq.Disable();
      PushFinished(task);
      irq.Unlock(was);
    }

    /** Switch to a task and come back when it yields or exits; no panic on the way. */
    method SwitchTo(task: Task, turn: Turn) returns (ghost created: seq<Task>)
      requires RingValid() && irq.Is(true) && current == schedulerTask
      requires task in tasks.Nodes && task != schedulerTask && !task.exited
      modifies this`current, this`finishedTasks, this`switched, irq, tasks
      modifies tasks.Nodes`next, tasks.Nodes`prev, task`exited, task`started, task`savedFlag, schedulerTask`savedFlag
      ensures RingValid() && irq.Is(true) && current == schedulerTask
      ensures Others() == created + old(Others()) && Members(created) == tasks.Nodes - old(tasks.Nodes)
      ensures fresh(tasks.Nodes - old(tasks.Nodes)) && old(tasks.Nodes) <= tasks.Nodes
      ensures forall t :: t in tasks.Nodes - old(tasks.Nodes) ==> !t.exited
      ensures switched == old(switched) + [task] && task.exited == turn.exits && task.started && !task.savedFlag
      ensures |created| == Creates(turn.actions) && Carrying(created, Flags(turn.actions, true))
      ensures finishedTasks == if turn.exits then [task] + old(finishedTasks) else old(finishedTasks)
    {
      assert schedulerTask == tasks.Order[0] && schedulerTask in tasks.Nodes;
      hide RingValid, Others, Members, Flags, Carrying;
      SwitchContext(task);
      created := RunTask(task, turn);
      NotAmong(created, task);
      Yield(created);
    }

    /** The current task gives way to the scheduler's, which goes on with interrupts enabled. */
    method Yield(ghost others: seq<Task>)
      requires current !in others
      modifies this`current, this`switched, irq, current`savedFlag
      ensures current == schedulerTask && irq.hardware && irq.software && !old(current).savedFlag
      ensures irq.panicked <==> old(irq.panicked) || !old(irq.hardware) || !old(irq.software)
      ensures switched == old(switched)
      ensures forall k :: 0 <= k < |others| ==> others[k].savedFlag == old(others[k].savedFlag)
    {
      SwitchContext(schedulerTask);
      irq.Enable();
    }

    /**
     * The task's side of a switch. A new task starts in its run routine and any other one returns from its own
     * switch; both enable interrupts first, whatever flag was loaded.
     */
    method RunTask(task: Task, turn: Turn) returns (ghost created: seq<Task>)
      requires RingValid() && !irq.panicked && !task.exited && current == task
      modifies this`finishedTasks, irq`hardware, irq`software, tasks
      modifies tasks.Nodes`next, tasks.Nodes`prev, task`exited, task`started
      ensures RingValid() && irq.Is(true) && task.exited == turn.exits && task.started && current == task
      ensures |created| == Creates(turn.actions) && Carrying(created, Flags(turn.actions, true))
      ensures Others() == created + old(Others()) && Members(created) == tasks.Nodes - old(tasks.Nodes)
      ensures fresh(tasks.Nodes - old(tasks.Nodes)) && old(tasks.Nodes) <= tasks.Nodes
      ensures forall t :: t in tasks.Nodes - old(tasks.Nodes) ==> !t.exited
      ensures finishedTasks == if turn.exits then [task] + old(finishedTasks) else old(finishedTasks)
    {
      hide RingValid, Others, Members, Flags, Carrying;
      task.started := true;
      irq.Enable();
      created := Act(turn.actions);
      if turn.exits {
        task.exited := true;
        HandleExit(task);
      }
    }

    /** Take every finished task out of the ring and delete it. */
    method HandleFinishedTasks()
      requires RingValid() && Reapable(finishedTasks, Others()) && irq.Synced()
      modifies this`finishedTasks, this`deleted, tasks, tasks.Nodes`next, tasks.Nodes`prev, irq`hardware, irq`software
      ensures RingValid() && finishedTasks == []
      ensures Others() == Without(old(Others()), Members(old(finishedTasks)))
      ensures tasks.Nodes == old(tasks.Nodes) - Members(old(finishedTasks))
      ensures deleted == old(deleted) + Members(old(finishedTasks))
      ensures irq.hardware == old(irq.hardware) && irq.software == old(irq.software)
    {
      var was := irq.Disable();
      ReapAll(finishedTasks);
      finishedTasks := [];
      irq.Unlock(was);
    }

    method ReapAll(finished: seq<Task>)
      requires RingValid() && Reapable(finished, Others()) && !irq.hardware && !irq.software
      modifies this`deleted, tasks, tasks.Nodes`next, tasks.Nodes`prev
      ensures RingValid() && deleted == old(deleted) + Members(finished)
      ensures Others() == Without(old(Others()), Members(finished))
      ensures tasks.Nodes == old(tasks.Nodes) - Members(finished)
    {
      ghost var all := Others();
      StartReaping(finished, all);
      hide RingValid, Without, Others, Members, Reapable;
      ghost var gone: set<Task> := {};
      for i := 0 to |finished|
        invariant RingValid() && gone == Members(finished[..i]) && Others() == Without(all, gone)
        invariant deleted == old(deleted) + gone && tasks.Nodes == old(tasks.Nodes) - gone
      {
        NextToReap(finished, all, i);
        Reap(finished[i], gone, all);
        gone := gone + {finished[i]};
      }
    }

    /** Remove one finished task and delete it. */
    method Reap(task: Task, ghost gone: set<Task>, ghost all: seq<Task>)
      requires RingValid() && Others() == Without(all, gone) && task in all && task !in gone
      modifies this`deleted, tasks, tasks.Nodes`next, tasks.Nodes`prev
      ensures RingValid() && deleted == old(deleted) + {task}
      ensures Others() == Without(all, gone + {task}) && tasks.Nodes == old(tasks.Nodes) - {task}
    {
      WithoutHas(all, gone, task);
      ghost var k: nat :| k < |Others()| && Others()[k] == task;
      CutOrder(tasks.Order, k, all, gone);
      assert tasks.Order[k + 1] == task;
      hide TaskRing.Valid, NoRepeats, Without;
      var _ := tasks.Remove(task, k + 1);
      deleted := deleted + {task};
    }

    method ShouldSchedule(task: Task) returns (r: bool)
      ensures r <==> task != schedulerTask && !task.exited
    {
      return task != schedulerTask && !task.exited;
    }

    /** The task after the one at place `v` of the pass, however many tasks were created in front. */
    lemma CursorMoves(created: seq<Task>, others: seq<Task>, v: nat)
      requires RingValid() && Others() == created + others && v <= |others| && (v == 0 ==> created == [])
      ensures Place(others, v).next == Place(others, v + 1)
    {
      var order := tasks.Order;
      var k := if v == 0 then 0 else |created| + v;
      assert order == [schedulerTask] + created + others;
      assert order[k] == Place(others, v);
      assert order[k].next == order[Succ(k, |order|)];
    }

    /** A task behind the created ones is a member of the ring, not the scheduler's, and not an earlier one. */
    lemma Apart(created: seq<Task>, others: seq<Task>, m: nat)
      requires RingValid() && Others() == created + others && m < |others|
      ensures others[m] != schedulerTask && others[m] in tasks.Nodes && others[m] !in others[..m]
    {
      var order := tasks.Order;
      assert order == [schedulerTask] + created + others;
      assert order[1 + |created| + m] == others[m];
      forall i | 0 <= i < m ensures others[i] != others[m] {
        assert order[1 + |created| + i] == others[i];
      }
    }

    /** The state between two steps of a pass over `others`, of which the first `m` have had their turn. */
    ghost predicate MidPass(others: seq<Task>, turns: nat -> Turn, m: nat, created: seq<Task>)
      requires m <= |others|
      reads this, irq, tasks, tasks.Nodes
    {
      && RingValid() && current == schedulerTask && irq.Is(false)
      && Others() == created + others && |created| == CreatedBy(turns, m)
      && finishedTasks == ExitedOf(others, turns, m)
      && forall t :: t in tasks.Nodes ==> (t.exited <==> t in Members(finishedTasks))
    }

    /** Tasks that have had their turn when the cursor has moved `v` times. */
    ghost function Done(v: nat): nat {
      if v == 0 then 0 else v - 1
    }

    /** The task under the cursor when it has moved `v` times. */
    ghost function Place(others: seq<Task>, v: nat): Task
      requires v <= |others| + 1
    {
      if v == 0 || v == |others| + 1 then schedulerTask else others[v - 1]
    }

    /** The next task of the pass has its turn. */
    method GiveTurn(node: Task, turn: Turn, ghost turns: nat -> Turn, ghost m: nat, ghost others: seq<Task>,
                    ghost before: seq<Task>)
      returns (ghost created: seq<Task>)
      requires m < |others| && node == others[m] && turn == turns(m) && MidPass(others, turns, m, before)
      modifies this`current, this`finishedTasks, this`switched, irq, tasks, tasks.Nodes
      ensures MidPass(others, turns, m + 1, created)
      ensures Members(created) == Members(before) + (tasks.Nodes - old(tasks.Nodes))
      ensures fresh(tasks.Nodes - old(tasks.Nodes)) && old(tasks.Nodes) <= tasks.Nodes
      ensures switched == old(switched) + [node]
    {
      Apart(before, others, m);
      ExitedMembers(others, turns, m);
      MembersConcat([node], finishedTasks);
      assert Members([node]) == {node} && node !in Members(finishedTasks);
      assert schedulerTask == tasks.Order[0] && schedulerTask in tasks.Nodes;
      assert ExitedOf(others, turns, m + 1) == (if turn.exits then [node] else []) + finishedTasks;
      hide RingValid, Others, Members, ExitedOf, Flags, Carrying;
      irq.Enable();
      ghost var more := SwitchTo(node, turn);
      var _ := irq.Disable();
      created := more + before;
      assert finishedTasks == ExitedOf(others, turns, m + 1);
      assert Members(finishedTasks) == (if turn.exits then {node} else {}) + Members(old(finishedTasks));
      ConcatAssoc(more, before, others);
      MembersConcat(more, before);
    }

    /** Give the task under the cursor its turn, unless it is the scheduler's own, and move on. */
    method Advance(node: Task, turns: nat -> Turn, shift: nat, ghost others: seq<Task>, ghost before: seq<Task>)
      returns (next: Task?, ghost created: seq<Task>)
      requires shift <= |others| && node == Place(others, shift) && MidPass(others, turns, Done(shift), before)
      requires shift == 0 ==> before == []
      modifies this`current, this`finishedTasks, this`switched, irq, tasks, tasks.Nodes
      ensures MidPass(others, turns, Done(shift + 1), created) && next == Place(others, shift + 1)
      ensures Members(created) == Members(before) + (tasks.Nodes - old(tasks.Nodes))
      ensures fresh(tasks.Nodes - old(tasks.Nodes)) && old(tasks.Nodes) <= tasks.Nodes
      ensures switched == old(switched) + others[Done(shift)..Done(shift + 1)]
      ensures shift < |others| ==> next != schedulerTask
    {
      if shift > 0 {
        Apart(before, others, shift - 1);
        ExitedMembers(others, turns, shift - 1);
      }
      created := before;
      var schedule := ShouldSchedule(node);
      if schedule {
        created := GiveTurn(node, turns(shift - 1), turns, shift - 1, others, before);
      }
      CursorMoves(created, others, shift);
      next := node.next;
      if shift < |others| {
        Apart(created, others, shift);
      }
    }

    /** Iterate over the ring, from the scheduler's task round to it again, while the tasks run and create others. */
    method Round(turns: nat -> Turn) returns (ghost created: seq<Task>)
      requires RingValid() && current == schedulerTask && irq.Is(false) && finishedTasks == []
      requires forall t :: t in tasks.Nodes ==> !t.exited
      modifies this`current, this`finishedTasks, this`switched, irq, tasks, tasks.Nodes
      ensures MidPass(old(Others()), turns, |old(Others())|, created)
      ensures Members(created) == tasks.Nodes - old(tasks.Nodes)
      ensures fresh(tasks.Nodes - old(tasks.Nodes)) && old(tasks.Nodes) <= tasks.Nodes
      ensures switched == old(switched) + old(Others())
      ensures |created| == CreatedBy(turns, |old(Others())|) && Members(created) !! Members(old(Others()))
      ensures finishedTasks == ExitedOf(old(Others()), turns, |old(Others())|)
    {
      assert Members(Others()) <= tasks.Nodes;
      assert Members<Task>([]) == {};
      created := Iterate(tasks.some, tasks.some, turns, Others());
    }

    /** The range-based loop: a cursor that starts at `end` and has to move before it may stop there. */
    method Iterate(begin: Task, end: Task, turns: nat -> Turn, ghost others: seq<Task>)
      returns (ghost created: seq<Task>)
      requires begin == end == schedulerTask && MidPass(others, turns, 0, [])
      modifies this`current, this`finishedTasks, this`switched, irq, tasks, tasks.Nodes
      ensures MidPass(others, turns, |others|, created)
      ensures Members(created) == Members<Task>([]) + (tasks.Nodes - old(tasks.Nodes))
      ensures fresh(tasks.Nodes - old(tasks.Nodes)) && old(tasks.Nodes) <= tasks.Nodes
      ensures switched == old(switched) + others
    {
      hide MidPass, Members, RingValid;
      created := [];
      var node: Task? := begin;
      var shift := 0;
      while !(node == end && shift != 0)
        invariant shift <= |others| + 1 && node == Place(others, shift)
        invariant 0 < shift <= |others| ==> node != schedulerTask
        invariant MidPass(others, turns, Done(shift), created) && (shift == 0 ==> created == [])
        invariant Members(created) == Members<Task>([]) + (tasks.Nodes - old(tasks.Nodes))
        invariant fresh(tasks.Nodes - old(tasks.Nodes)) && old(tasks.Nodes) <= tasks.Nodes
        invariant switched == old(switched) + others[..Done(shift)]
        decreases |others| + 1 - shift
      {
        PrefixGrows(old(switched), others, Done(shift), Done(shift + 1));
        node, created := Advance(node, turns, shift, others, created);
        shift := shift + 1;
      }
      assert others[..|others|] == others;
    }

    /** One pass: every task in the ring has one turn, in ring order; those that exit are reaped at the end. */
    method Pass(turns: nat -> Turn) returns (ghost created: seq<Task>, ghost dead: set<Task>)
      requires Valid()
      modifies this, irq, tasks, tasks.Nodes
      ensures Valid() && switched == old(switched) + old(Others())
      ensures |created| == CreatedBy(turns, |old(Others())|)
      ensures dead == Members(ExitedOf(old(Others()), turns, |old(Others())|))
      ensures Others() == created + Without(old(Others()), dead) && fresh(Members(created))
      ensures deleted == old(deleted) + dead && dead !! tasks.Nodes
      ensures fresh(tasks.Nodes - old(tasks.Nodes))
    {
      ghost var others := Others();
      hide RingValid, MidPass, Without, ExitedOf, Others, Reapable, Members, CreatedBy;
      var _ := irq.Disable();
      created := Round(turns);
      dead := Members(ExitedOf(others, turns, |others|));
      Finish(created, others, turns);
    }

    /** Reap what exited during the pass and enable interrupts again. */
    method Finish(ghost created: seq<Task>, ghost others: seq<Task>, ghost turns: nat -> Turn)
      requires MidPass(others, turns, |others|, created) && Members(created) !! Members(others)
      modifies this`finishedTasks, this`deleted, tasks, tasks.Nodes`next, tasks.Nodes`prev, irq`hardware, irq`software
      ensures Valid()
      ensures Others() == created + Without(others, Members(old(finishedTasks)))
      ensures deleted == old(deleted) + Members(old(finishedTasks))
      ensures tasks.Nodes == old(tasks.Nodes) - Members(old(finishedTasks))
    {
      ReadyToReap(created, others, turns);
      hide RingValid, Without, ExitedOf, Others, Reapable, Members, Valid;
      Settle();
    }

    /** Once the finished tasks are gone, no task of the ring has exited. */
    method Settle()
      requires RingValid() && Reapable(finishedTasks, Others()) && current == schedulerTask && irq.Is(false)
      requires forall t :: t in tasks.Nodes - Members(finishedTasks) ==> !t.exited
      modifies this`finishedTasks, this`deleted, tasks, tasks.Nodes`next, tasks.Nodes`prev, irq`hardware, irq`software
      ensures Valid()
      ensures Others() == Without(old(Others()), Members(old(finishedTasks)))
      ensures deleted == old(deleted) + Members(old(finishedTasks))
      ensures tasks.Nodes == old(tasks.Nodes) - Members(old(finishedTasks))
    {
      hide RingValid, Without, Others, Reapable, Members;
      HandleFinishedTasks();
      irq.Enable();
    }

    /** What a pass leaves to be reaped is in the ring, once each, and was there when the pass began. */
    lemma ReadyToReap(created: seq<Task>, others: seq<Task>, turns: nat -> Turn)
      requires MidPass(others, turns, |others|, created)
      requires Members(created) !! Members(others)
      ensures Reapable(finishedTasks, Others())
      ensures Without(Others(), Members(finishedTasks)) == created + Without(others, Members(finishedTasks))
    {
      forall m | 0 <= m < |others| ensures others[m] !in others[..m] {
        Apart(created, others, m);
      }
      hide RingValid, Without, ExitedOf, Others, Members, Reapable;
      ExitedReapable(created, others, turns);
    }

    lemma NoRepeatsOfOthers()
      requires RingValid()
      ensures NoRepeats(Others())
    {
    }

    /** Starting the loop panics if interrupts are not enabled. */
    method CheckEnabled()
      modifies irq`panicked
      ensures irq.panicked <==> old(irq.panicked) || !irq.hardware || !irq.software
    {
      var enabled := irq.IsEnabled();
      irq.panicked := irq.panicked || !enabled;
    }

    /** The first passes of the endless loop, with the history of the ring and of what its tasks did. */
    method ScheduleForever(passes: nat, turns: (nat, nat) -> Turn) returns (ghost h: History<Task>)
      requires Valid()
      modifies this, irq, tasks, tasks.Nodes
      ensures Valid() && WellFormed(h) && |h.rings| == passes + 1 && h.rings[0] == old(Others())
      ensures switched == old(switched) + Flatten(h.rings[..passes]) && Others() == h.rings[passes]
      ensures Alternates(Flatten(h.rings[..passes])) && Follows(h, turns)
    {
      CheckEnabled();
      NoRepeatsOfOthers();
      h := History([Others()], [], []);
      assert Flatten(h.rings[..0]) == [] && WellFormed(h) && Valid() && Follows(h, turns);
      hide Valid, Others, WellFormed, Flatten, Alternates, Follows;
      for i := 0 to passes
        invariant Valid() && WellFormed(h) && |h.rings| == i + 1 && h.rings[0] == old(Others())
        invariant switched == old(switched) + Flatten(h.rings[..i]) && Others() == h.rings[i]
        invariant fresh(tasks.Nodes - old(tasks.Nodes)) && Follows(h, turns)
      {
        ConcatAssoc(old(switched), Flatten(h.rings[..i]), h.rings[i]);
        h := RecordedPass(turns, h, i);
      }
      LogAlternates(h, passes);
    }

    /** Switch into itself once, then start passing. */
    method StartScheduling(passes: nat, turns: (nat, nat) -> Turn) returns (ghost h: History<Task>)
      requires Valid()
      modifies this, irq, tasks, tasks.Nodes
      ensures Valid() && WellFormed(h) && |h.rings| == passes + 1 && h.rings[0] == old(Others())
      ensures switched == old(switched) + Flatten(h.rings[..passes]) && Others() == h.rings[passes]
      ensures Alternates(Flatten(h.rings[..passes])) && Follows(h, turns)
    {
      assert schedulerTask == tasks.Order[0] && schedulerTask in tasks.Nodes;
      SwitchContext(schedulerTask);
      irq.Enable();
      h := ScheduleForever(passes, turns);
    }

    /** One pass, and the history with it. */
    method RecordedPass(turns: (nat, nat) -> Turn, ghost h: History<Task>, i: nat) returns (ghost h': History<Task>)
      requires Valid() && WellFormed(h) && |h.rings| == i + 1 && Others() == h.rings[i] && Follows(h, turns)
      modifies this, irq, tasks, tasks.Nodes
      ensures Valid() && WellFormed(h') && |h'.rings| == i + 2 && h'.rings[0] == h.rings[0] && Follows(h', turns)
      ensures Others() == h'.rings[i + 1] && fresh(tasks.Nodes - old(tasks.Nodes))
      ensures switched == old(switched) + h.rings[i]
      ensures Flatten(h'.rings[..i + 1]) == Flatten(h.rings[..i]) + h.rings[i]
    {
      ghost var others := Others();
      NoRepeatsOfOthers();
      hide RingValid, Flatten, Without, ExitedOf, Follows;
      var turnsNow := (n: nat) => turns(i, n);
      ghost var created, dead := Pass(turnsNow);
      assert forall t :: t in created ==> t in Members(created);
      NoRepeatsOfOthers();
      ExtendedWellFormed(h, created, dead);
      ExitedExits(others, turnsNow);
      FollowsOn(h, turns, turnsNow, created, dead);
      h' := Extended(h, created, dead);
    }
  }

  /** In each pass exactly the tasks whose turns exit die, and as many are created as the turns create. */
  ghost predicate Follows(h: History<Task>, turns: (nat, nat) -> Turn) {
    && |h.rings| == |h.created| + 1 == |h.dead| + 1
    && forall i :: 0 <= i < |h.dead| ==> PassFollows(h.rings[i], h.created[i], h.dead[i], turns, i)
  }

  ghost predicate PassFollows(ring: seq<Task>, created: seq<Task>, dead: set<Task>, turns: (nat, nat) -> Turn, i: nat) {
    && dead <= Members(ring)
    && (forall k :: 0 <= k < |ring| ==> (ring[k] in dead <==> turns(i, k).exits))
    && |created| == CreatedIn(turns, i, |ring|)
  }

  /** How many tasks are created in the first `m` turns of pass `i`. */
  ghost function CreatedIn(turns: (nat, nat) -> Turn, i: nat, m: nat): nat {
    if m == 0 then 0 else CreatedIn(turns, i, m - 1) + Creates(turns(i, m - 1).actions)
  }

  lemma {:induction false} CreatedSame(turns: (nat, nat) -> Turn, f: nat -> Turn, i: nat, m: nat)
    requires forall n: nat :: f(n) == turns(i, n)
    ensures CreatedBy(f, m) == CreatedIn(turns, i, m)
  {
    if m > 0 {
      CreatedSame(turns, f, i, m - 1);
    }
  }

  lemma FollowsOn(h: History<Task>, turns: (nat, nat) -> Turn, f: nat -> Turn, created: seq<Task>, dead: set<Task>)
    requires Follows(h, turns)
    requires forall n: nat :: f(n) == turns(|h.dead|, n)
    requires var ring := h.rings[|h.dead|]; Exiting(ring, f, dead) && |created| == CreatedBy(f, |ring|)
    ensures Follows(Extended(h, created, dead), turns)
  {
    CreatedSame(turns, f, |h.dead|, |h.rings[|h.dead|]|);
  }

  /** Tasks that may be taken out one after the other: different members of the ring. */
  ghost predicate Reapable(finished: seq<Task>, all: seq<Task>) {
    NoRepeats(finished) && forall t :: t in finished ==> t in all
  }

  lemma StartReaping(finished: seq<Task>, all: seq<Task>)
    ensures Members(finished[..0]) == {} && Without(all, {}) == all && finished[..|finished|] == finished
  {
    WithoutNone(all, {});
  }

  lemma NextToReap(finished: seq<Task>, all: seq<Task>, i: nat)
    requires Reapable(finished, all) && i < |finished|
    ensures finished[i] in all && finished[i] !in Members(finished[..i])
    ensures Members(finished[..i + 1]) == Members(finished[..i]) + {finished[i]}
  {
    MembersPush(finished, i);
  }

  /** The tasks among the first `m` whose turn ended in an exit, last first. */
  ghost function ExitedOf(others: seq<Task>, turns: nat -> Turn, m: nat): seq<Task>
    requires m <= |others|
  {
    if m == 0 then []
    else (if turns(m - 1).exits then [others[m - 1]] else []) + ExitedOf(others, turns, m - 1)
  }

  /** Exactly those tasks of the pass are dead whose turn ends in an exit. */
  ghost predicate Exiting(others: seq<Task>, turns: nat -> Turn, dead: set<Task>) {
    && dead <= Members(others)
    && forall k :: 0 <= k < |others| ==> (others[k] in dead <==> turns(k).exits)
  }

  lemma {:induction false} ExitedPlace(others: seq<Task>, turns: nat -> Turn, m: nat, k: nat)
    requires NoRepeats(others) && m <= |others| && k < |others|
    ensures others[k] in ExitedOf(others, turns, m) <==> k < m && turns(k).exits
  {
    if m > 0 {
      ExitedPlace(others, turns, m - 1, k);
    }
  }

  lemma ExitedExits(others: seq<Task>, turns: nat -> Turn)
    requires NoRepeats(others)
    ensures Exiting(others, turns, Members(ExitedOf(others, turns, |others|)))
  {
    ExitedMembers(others, turns, |others|);
    forall k | 0 <= k < |others|
      ensures others[k] in Members(ExitedOf(others, turns, |others|)) <==> turns(k).exits
    {
      ExitedPlace(others, turns, |others|, k);
    }
  }

  lemma {:induction false} ExitedMembers(others: seq<Task>, turns: nat -> Turn, m: nat)
    requires m <= |others|
    ensures forall t :: t in ExitedOf(others, turns, m) ==> t in others[..m]
  {
    if m > 0 {
      ExitedMembers(others, turns, m - 1);
      assert others[..m] == others[..m - 1] + [others[m - 1]];
    }
  }

  lemma {:induction false} ExitedDistinct(others: seq<Task>, turns: nat -> Turn, m: nat)
    requires m <= |others| && forall i :: 0 <= i < |others| ==> others[i] !in others[..i]
    ensures NoRepeats(ExitedOf(others, turns, m))
  {
    if m > 0 {
      ExitedDistinct(others, turns, m - 1);
      ExitedMembers(others, turns, m - 1);
    }
  }

  lemma ExitedReapable(created: seq<Task>, others: seq<Task>, turns: nat -> Turn)
    requires Members(created) !! Members(others) && forall i :: 0 <= i < |others| ==> others[i] !in others[..i]
    ensures var finished := ExitedOf(others, turns, |others|);
      && Reapable(finished, created + others)
      && Without(created + others, Members(finished)) == created + Without(others, Members(finished))
  {
    var finished := ExitedOf(others, turns, |others|);
    ExitedDistinct(others, turns, |others|);
    ExitedMembers(others, turns, |others|);
    hide ExitedOf, Without, NoRepeats;
    assert others[..|others|] == others;
    WithoutConcat(created, others, Members(finished));
    forall t | t in created ensures t !in Members(finished) {
      assert t in Members(created) && t !in Members(others);
    }
    WithoutNone(created, Members(finished));
  }

  /** Cutting member k + 1 out of the ring takes that task away from what follows the head. */
  lemma CutOrder(s: seq<Task>, k: nat, all: seq<Task>, gone: set<Task>)
    requires NoRepeats(s) && k + 1 < |s| && s[1..] == Without(all, gone)
    ensures var cut := s[..k + 1] + s[k + 2..];
      && cut[0] == s[0]
      && cut[1..] == Without(all, gone + {s[k + 1]})
      && s[k + 1] !in cut
      && (forall j :: 0 <= j < |cut| ==> cut[j] in s)
  {
    var cut := s[..k + 1] + s[k + 2..];
    assert s[1..][k] == s[k + 1];
    WithoutOne(s[1..], k);
    WithoutTwice(all, gone, {s[k + 1]});
    assert cut[1..] == s[1..][..k] + s[1..][k + 1..];
    assert forall j :: 0 <= j < |cut| ==> cut[j] == s[if j <= k then j else j + 1];
  }
}
