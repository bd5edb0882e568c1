/**
 * The worker of the task framework: a rank with its slice of the problem, a
 * timestep counter and a task queue, and the list of tasks the simulation
 * queues for it: per timestep the update of the slices, the physics, the
 * exchange, the collisions and, on rank 0, the comet and the progress
 * report; at the end the closing report. `work` runs them in order.
 */
module Worker {
  import opened Wrappers
  import TaskQueue
  import Partition

  /** The functions of the simulation a task can stand for. */
  datatype Routine =
    | UpdateThread | ComputeVelocity | UpdateLocations | GatherBroadcast
    | CometInvade | CheckCollisions | Broadcast | PrintFrequently | EndSimulate

  /** What a task is handed: the argument list holding the worker, or the empty one. */
  datatype Args = ProcessArg | NoArgs

  datatype Task = Task(routine: Routine, args: Args, argc: int)

  /** The tasks queued for rank `id` in one timestep, in order. */
  function StepTasks(id: int): (ts: seq<Task>)
    ensures |ts| == if id == 0 then 8 else 6
  {
    var common := [Task(UpdateThread, ProcessArg, 1), Task(ComputeVelocity, NoArgs, 0),
                   Task(UpdateLocations, NoArgs, 0), Task(GatherBroadcast, NoArgs, 0)];
    if id == 0 then
      common + [Task(CometInvade, NoArgs, 0), Task(CheckCollisions, NoArgs, 0),
                Task(Broadcast, NoArgs, 0), Task(PrintFrequently, NoArgs, 0)]
    else
      common + [Task(CheckCollisions, NoArgs, 0), Task(Broadcast, NoArgs, 0)]
  }

  /**
   * A timestep starts with the slice update, the only task handed the
   * worker; it never closes the run; and rank 0 alone gets the comet and the
   * progress report.
   */
  lemma StepTasksShape(id: int)
    ensures StepTasks(id)[0] == Task(UpdateThread, ProcessArg, 1)
    ensures forall k :: 1 <= k < |StepTasks(id)| ==> StepTasks(id)[k].args == NoArgs && StepTasks(id)[k].argc == 0
    ensures forall k :: 0 <= k < |StepTasks(id)| ==> StepTasks(id)[k].routine != EndSimulate
    ensures (exists k :: 0 <= k < |StepTasks(id)| && StepTasks(id)[k].routine == CometInvade) <==> id == 0
    ensures (exists k :: 0 <= k < |StepTasks(id)| && StepTasks(id)[k].routine == PrintFrequently) <==> id == 0
  {
    var ts := StepTasks(id);
    if id == 0 {
      assert ts[4].routine == CometInvade && ts[7].routine == PrintFrequently;
    }
  }

  /** The tasks of the first `steps` timesteps. */
  function Steps(id: int, steps: int): seq<Task>
    decreases steps
  {
    if steps <= 0 then [] else Steps(id, steps - 1) + StepTasks(id)
  }

  /** Everything main queues: `timesteps` timesteps, then the closing report. */
  function Schedule(id: int, timesteps: int): seq<Task> {
    Steps(id, timesteps) + [Task(EndSimulate, NoArgs, 0)]
  }

  /** Queuing one more timestep's tasks behind `i` timesteps gives `i + 1` timesteps. */
  lemma StepsGrow(start: seq<Task>, id: int, i: int)
    requires i >= 0
    ensures start + Steps(id, i) + StepTasks(id) == start + Steps(id, i + 1)
  {
    assert Steps(id, i + 1) == Steps(id, i) + StepTasks(id);
  }

  /** Each timestep adds one round of tasks; none when the count is not positive. */
  lemma {:induction false} StepsLength(id: int, steps: int)
    ensures |Steps(id, steps)| == (if steps <= 0 then 0 else steps) * |StepTasks(id)|
    decreases steps
  {
    if steps > 0 {
      StepsLength(id, steps - 1);
    }
  }

  /** Task `m` of timestep `t` sits at `t * L + m`, with `L` the tasks per timestep. */
  lemma {:induction false} StepsAt(id: int, steps: int, t: int, m: int)
    requires 0 <= t < steps && 0 <= m < |StepTasks(id)|
    ensures t * |StepTasks(id)| + m < |Steps(id, steps)|
    ensures Steps(id, steps)[t * |StepTasks(id)| + m] == StepTasks(id)[m]
    decreases steps
  {
    var l := |StepTasks(id)|;
    StepsLength(id, steps - 1);
    if t < steps - 1 {
      StepsAt(id, steps - 1, t, m);
      assert t * l + m < (steps - 1) * l by {
        assert (t + 1) * l <= (steps - 1) * l;
      }
    } else {
      assert t * l == (steps - 1) * l;
    }
  }

  /** The closing report is the last task and the only one of its kind. */
  lemma {:induction false} ScheduleEnds(id: int, timesteps: int)
    ensures |Schedule(id, timesteps)| == (if timesteps <= 0 then 0 else timesteps) * |StepTasks(id)| + 1
    ensures Schedule(id, timesteps)[|Schedule(id, timesteps)| - 1] == Task(EndSimulate, NoArgs, 0)
    ensures forall k :: 0 <= k < |Schedule(id, timesteps)| - 1 ==> Schedule(id, timesteps)[k].routine != EndSimulate
  {
    StepsLength(id, timesteps);
    forall k | 0 <= k < |Steps(id, timesteps)|
      ensures Steps(id, timesteps)[k].routine != EndSimulate
    {
      StepsNeverEnd(id, timesteps, k);
    }
  }

  lemma {:induction false} StepsNeverEnd(id: int, steps: int, k: int)
    requires 0 <= k < |Steps(id, steps)|
    ensures Steps(id, steps)[k].routine != EndSimulate
    decreases steps
  {
    var prev := Steps(id, steps - 1);
    StepTasksShape(id);
    if k < |prev| {
      StepsNeverEnd(id, steps - 1, k);
    }
  }

  class Worker {
    const id: int
    const population: int
    var problemSize: nat
    var loopIndex: int
    var startIndex: int
    var endIndex: int
    const queue: TaskQueue.Queue<Task>

    ghost predicate Valid()
      reads this, queue, queue.Repr
    {
      queue.Valid() && this !in queue.Repr
    }

    /**
     * initialize_worker, with the rank count and the rank as the
     * communicator reports them: timestep 0 and a freshly created queue.
     */
    constructor Initialize(population: int, id: int)
      ensures Valid() && fresh(queue) && fresh(queue.Repr)
      ensures this.population == population && this.id == id && loopIndex == 0
      ensures queue.size == 0 && queue.tasks == [] && queue.Sound()
    {
      this.population := population;
      this.id := id;
      loopIndex := 0;
      queue := new TaskQueue.Queue<Task>.Create();
    }

    /** update_worker: the slice is the rank's stride of the problem, all of it for a single rank. */
    method UpdateWorker()
      modifies this
      ensures Partition.Span(startIndex, endIndex) == Partition.Range(problemSize, population, id)
      ensures problemSize == old(problemSize) && loopIndex == old(loopIndex)
    {
      if population <= 1 {
        startIndex := 0;
        endIndex := problemSize;
        return;
      }
      var stride := Partition.Stride(problemSize, population);
      startIndex := id * stride;
      endIndex := startIndex + stride;
      if id == population - 1 {
        endIndex := problemSize;
      }
    }

    /** load_task: one task holding the routine, the arguments and their count is pushed. */
    method LoadTask(routine: Routine, args: Args, argc: int)
      requires Valid()
      modifies queue.Repr
      ensures Valid() && fresh(queue.Repr - old(queue.Repr))
      ensures queue.size == old(queue.size) + 1 && queue.tail != null
      ensures queue.tasks == if old(queue.head) == null && old(queue.tail) != null then old(queue.tasks) else old(queue.tasks) + [Task(routine, args, argc)]
      ensures old(queue.Sound()) ==> queue.Sound() && queue.tasks == old(queue.tasks) + [Task(routine, args, argc)]
    {
      queue.Push(Task(routine, args, argc));
    }

    /** One pass of main's loop: the tasks of a timestep for this rank. */
    method LoadStep()
      requires Valid() && queue.Sound()
      modifies queue.Repr
      ensures Valid() && queue.Sound() && fresh(queue.Repr - old(queue.Repr))
      ensures queue.tasks == old(queue.tasks) + StepTasks(id)
    {
      LoadPhysics();
      LoadCollisions();
    }

    /** The first half of a timestep: the slices, the physics and the exchange. */
    method LoadPhysics()
      requires Valid() && queue.Sound()
      modifies queue.Repr
      ensures Valid() && queue.Sound() && fresh(queue.Repr - old(queue.Repr))
      ensures queue.tasks == old(queue.tasks) + StepTasks(id)[..4]
    {
      LoadTask(UpdateThread, ProcessArg, 1);
      LoadTask(ComputeVelocity, NoArgs, 0);
      LoadTask(UpdateLocations, NoArgs, 0);
      LoadTask(GatherBroadcast, NoArgs, 0);
    }

    /** The second half: the comet on rank 0, the collisions, the broadcast and the report on rank 0. */
    method LoadCollisions()
      requires Valid() && queue.Sound()
      modifies queue.Repr
      ensures Valid() && queue.Sound() && fresh(queue.Repr - old(queue.Repr))
      ensures queue.tasks == old(queue.tasks) + StepTasks(id)[4..]
    {
      if id == 0 {
        LoadTask(CometInvade, NoArgs, 0);
      }
      LoadTask(CheckCollisions, NoArgs, 0);
      LoadTask(Broadcast, NoArgs, 0);
      if id == 0 {
        LoadTask(PrintFrequently, NoArgs, 0);
      }
    }

    /** The loop of main: each timestep's tasks for this rank, then the closing report. */
    method LoadSchedule(timesteps: int)
      requires Valid() && queue.Sound()
      modifies queue.Repr
      ensures Valid() && queue.Sound() && fresh(queue.Repr - old(queue.Repr))
      ensures queue.tasks == old(queue.tasks) + Schedule(id, timesteps)
    {
      LoadSteps(timesteps);
      LoadTask(EndSimulate, NoArgs, 0);
    }

    /** The timesteps of main's loop. */
    method LoadSteps(timesteps: int)
      requires Valid() && queue.Sound()
      modifies queue.Repr
      ensures Valid() && queue.Sound() && fresh(queue.Repr - old(queue.Repr))
      ensures queue.tasks == old(queue.tasks) + Steps(id, timesteps)
    {
      var i := 0;
      while i < timesteps
        invariant Valid() && queue.Sound() && fresh(queue.Repr - old(queue.Repr))
        invariant i <= timesteps || i == 0
        invariant queue.tasks == old(queue.tasks) + Steps(id, i)
        decreases timesteps - i
      {
        LoadStep();
        StepsGrow(old(queue.tasks), id, i);
        i := i + 1;
      }
    }

    /**
     * work: pops and runs tasks until is_empty says the queue is empty;
     * `ran` lists the tasks run, in order: every linked task, in the order
     * queued, each lowering the size by one. When the size counts more
     * tasks than are linked (after a push through a dangling tail), the loop
     * reaches an empty list with the size still positive: `pop` then returns
     * an uninitialised task whose function pointer C calls, and the model
     * stops with `fault`.
     */
    method Work() returns (ran: seq<Task>, fault: bool)
      requires Valid()
      modifies queue
      ensures Valid() && queue.Repr == old(queue.Repr) && queue.tail == old(queue.tail)
      ensures ran == old(queue.tasks) && queue.tasks == [] && queue.size == old(queue.size) - |ran|
      ensures fault <==> old(queue.size) > |old(queue.tasks)|
    {
      ran, fault := [], false;
      while !queue.IsEmpty()
        invariant Valid() && queue.Repr == old(queue.Repr) && queue.tail == old(queue.tail)
        invariant old(queue.tasks) == ran + queue.tasks
        invariant queue.size == old(queue.size) - |ran|
        decreases queue.size
      {
        var task := queue.Pop();
        match task
        case Some(t) => ran := ran + [t];
        case None =>
          fault := true;
          return;
      }
    }
  }

  /** main without the transport: a worker is set up, the schedule queued, and every task run in queue order, without a fault. */
  method RunProcess(population: int, id: int, timesteps: int) returns (ran: seq<Task>, fault: bool)
    ensures ran == Schedule(id, timesteps) && !fault
  {
    var process := new Worker.Initialize(population, id);
    process.LoadSchedule(timesteps);
    ran, fault := process.Work();
  }

  /**
   * A task loaded after the queue has been worked empty is lost behind the
   * dangling tail, but still counted: the next work finds no node to pop and
   * runs an uninitialised task.
   */
  method WorkAfterDrain(population: int, id: int) returns (first: seq<Task>, second: seq<Task>, fault: bool)
    ensures first == [Task(Broadcast, NoArgs, 0)] && second == [] && fault
  {
    var process := new Worker.Initialize(population, id);
    process.LoadTask(Broadcast, NoArgs, 0);
    var drained;
    first, drained := process.Work();
    process.LoadTask(CheckCollisions, NoArgs, 0);
    second, fault := process.Work();
  }
}
