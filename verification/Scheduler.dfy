/** The scheduler and wait-queue routines over the kernel's own variables.  Each routine that a task or
    an interrupt enters is proved to take exactly one step of `WaitProtocol` and to keep its invariant,
    so that whatever order they are entered in, they perform a run of the protocol. */
module Scheduler {
  import opened WaitProtocol
  import opened WaitInvariant
  import WaitTimes

  class SchedulerState {
    var tasks: TaskId
    var tasksTail: TaskId
    var runningTask: TaskId
    var next: map<TaskId, TaskId>
    var state: map<TaskId, TaskState>
    var head: map<Queue, Ptr>
    var wnext: map<TaskId, Ptr>
    var jiffies: nat
    var keyIndex: nat
    // Where each task stands in its code.
    var pc: map<TaskId, Pc>
    // The sequences that the pointers spell out.
    ghost var shape: Shape

    ghost function State(): Kernel
      reads this
    {
      Kernel(tasks, tasksTail, runningTask, next, state, head, wnext, pc, jiffies, keyIndex)
    }

    ghost predicate Valid()
      reads this
    {
      Core(State(), shape)
    }

    /** `scheduler_initialize` */
    constructor (boot: TaskId)
      ensures State() == Initialized(boot) && shape == Shape([boot], [], [])
      ensures Valid()
    {
      head := map[TimerQueue := Null, KeyQueue := Null];
      tasks := boot;
      tasksTail := boot;
      next := map[boot := boot];
      state := map[boot := RUNNING];
      wnext := map[boot := Null];
      runningTask := boot;
      jiffies, keyIndex := 0, 0;
      pc := map[boot := Outside];
      shape := Shape([boot], [], []);
    }

    /** `tasks_insert` */
    method TasksInsert(task: TaskId)
      requires IsRing(State(), shape.ring) && task !in shape.ring
      modifies this`next, this`tasksTail, this`shape
      ensures next == old(next)[task := tasks][old(tasksTail) := task] && tasksTail == task
      ensures shape == old(shape).(ring := old(shape).ring + [task])
      ensures IsRing(State(), shape.ring)
    {
      ghost var k := State();
      next := next[task := tasks];
      next := next[tasksTail := task];
      tasksTail := task;
      InsertedRing(k, task, shape.ring);
      shape := shape.(ring := shape.ring + [task]);
    }

    /** `scheduler_create_thread`, with the structure that `task_inherit` returns. */
    method CreateThread(task: TaskId)
      requires Valid() && task !in next
      requires At(State(), Outside)
      modifies this
      ensures Create(old(State()), task, State()) && Valid()
      ensures shape == old(shape).(ring := old(shape).ring + [task])
    {
      hide Distinct, Core;
      ghost var k, sh := State(), shape;
      NewOnRing(k, sh, task);
      state := state[task := RUNNING];
      wnext := wnext[task := Null];
      pc := pc[task := Outside];
      TasksInsert(task);
      ghost var sh' := CreateKeeps(k, task, State(), sh);
    }

    /** `scheduler_next_running_task`: terminates on every ring. */
    method NextRunningTask(task: TaskId) returns (curr: TaskId)
      requires IsRing(State(), shape.ring) && task in shape.ring
      requires forall t :: t in shape.ring ==> t in state
      ensures curr in shape.ring && IsNextRunning(State(), task, curr)
    {
      hide Distinct;
      ghost var k, ring := State(), shape.ring;
      ghost var i := IndexOf(ring, task);
      ghost var n: nat := 1;
      WalkRing(k, ring, i, 1);
      assert LinkAt(next, ring, i);
      curr := next[task];
      while state[curr] != RUNNING && curr != task
        invariant 1 <= n <= |ring| && curr == ring[Pos(i, n, |ring|)] == Walk(next, task, n)
        invariant forall m :: 1 <= m < n ==>
                    var c := Walk(next, task, m); c != task && c in state && state[c] != RUNNING
        decreases |ring| - n
      {
        assert n < |ring|;
        assert LinkAt(next, ring, Pos(i, n, |ring|));
        curr := next[curr];
        n := n + 1;
        WalkRing(k, ring, i, n);
      }
      assert StopsAfter(k, task, n);
    }

    /** `scheduler_yield`; `task_switch` is the change of `runningTask`.  A task that yields inside a wait
        loop continues with the next round of the loop when it is switched to again. */
    method YieldRunning()
      requires Valid() && (At(State(), Outside) || pc[runningTask].Yielding?)
      modifies this`runningTask, this`pc
      ensures old(pc[runningTask].Outside?) ==> Yield(old(State()), State()) && Valid()
      ensures old(pc[runningTask].Yielding?) ==>
                && YieldInLoop(old(State()), old(pc[runningTask].w), State())
                && (old(SomeoneRuns(State(), shape.ring)) ==> Valid())
    {
      hide Core;
      ghost var k := State();
      CoreRing(k, shape);
      var loop := pc[runningTask].Yielding?;
      ghost var w := if loop then pc[runningTask].w else Sleep(0, 0);
      if loop {
        pc := pc[runningTask := Preparing(pc[runningTask].w)];
      }
      assert loop ==> State() == Goto(k, Preparing(w));
      var next := NextRunningTask(runningTask);
      ghost var g := State();
      if next != runningTask {
        runningTask := next;
      }
      assert State() == g.(running := next);
      assert Yield(g, State());
      if !loop {
        PlainYieldKeeps(k, State(), shape);
      } else if SomeoneRuns(k, shape.ring) {
        YieldInLoopKeeps(k, w, State(), shape);
      }
    }

    /** `tasks_remove` */
    method TasksRemove(task: TaskId)
      requires IsRing(State(), shape.ring) && 2 <= |shape.ring| && task in shape.ring
      modifies this`next, this`tasks, this`tasksTail, this`shape
      ensures State() == Removed(old(State()), old(shape).ring, IndexOf(old(shape).ring, task))
      ensures shape == old(shape).(ring := Without(old(shape).ring, IndexOf(old(shape).ring, task)))
      ensures IsRing(State(), shape.ring)
    {
      hide Distinct, RingOf;
      ghost var k, ring := State(), shape.ring;
      ghost var at := IndexOf(ring, task);
      HeadIndex(k, ring, task);
      if task == tasks {
        next, tasks := next[tasksTail := next[task]], next[task];
      } else {
        var prev, curr := FindPredecessor(task);
        if curr == task {
          next := next[prev := next[curr]];
          if curr == tasksTail {
            tasksTail := prev;
          }
        }
      }
      assert State() == Removed(k, ring, at);
      RemovedRing(k, ring, at);
      shape := shape.(ring := Without(ring, at));
    }

    /** The search loop of `tasks_remove`. */
    method FindPredecessor(task: TaskId) returns (prev: TaskId, curr: TaskId)
      requires IsRing(State(), shape.ring) && 2 <= |shape.ring|
      requires task in shape.ring && task != tasks
      ensures curr == task
      ensures var i := IndexOf(shape.ring, task); 1 <= i && prev == shape.ring[i - 1]
    {
      hide Distinct, IndexOf;
      ghost var ring := shape.ring;
      ghost var at := IndexOf(ring, task);
      prev := tasks;
      assert LinkAt(next, ring, 0);
      curr := next[tasks];
      ghost var i: nat := 1;
      while curr != tasksTail && curr != task
        invariant 1 <= i <= at && prev == ring[i - 1] && curr == ring[i]
        decreases |ring| - i
      {
        assert LinkAt(next, ring, i);
        prev := curr;
        curr := next[curr];
        i := i + 1;
      }
      IndexUnique(ring, i);
      IndexUnique(ring, |ring| - 1);
    }

    /** `scheduler_exit`: shuts the system down when no other task is left. */
    method ExitRunning() returns (shutdown: bool)
      requires Valid() && At(State(), Outside)
      modifies this
      ensures shutdown <==> |old(shape).ring| == 1
      ensures shutdown ==> State() == old(State())
      ensures !shutdown ==> Exit(old(State()), State())
      ensures !shutdown && SuccessorRuns(old(State())) ==> Valid()
    {
      ghost var k, ring, sh := State(), shape.ring, shape;
      ghost var i := IndexOf(ring, runningTask);
      assert LinkAt(next, ring, i);
      if next[runningTask] == runningTask {
        return true;
      }
      var from := runningTask;
      runningTask := next[runningTask];
      TasksRemove(from);
      assert ExitAt(k, ring, i, State());
      if SuccessorRuns(k) {
        ghost var sh' := ExitKeeps(k, State(), sh, ring, i);
      }
      return false;
    }

    /** The call of `scheduler_sleep`, which notes the time. */
    method CallSleep(ms: nat)
      requires Valid() && At(State(), Outside)
      modifies this`pc
      ensures Begin(old(State()), Sleep(jiffies, ms), State()) && Valid()
    {
      hide Core;
      ghost var k := State();
      var w := Sleep(jiffies, ms);
      pc := pc[runningTask := Entering(w)];
      assert State() == Goto(k, Entering(w));
      BeginKeeps(k, w, State(), shape);
    }

    /** The call of `kb_getkey`, which notes the ring index. */
    method CallGetKey()
      requires Valid() && At(State(), Outside)
      modifies this`pc
      ensures Begin(old(State()), Key(keyIndex % 256), State()) && Valid()
    {
      hide Core;
      ghost var k := State();
      var w := Key(keyIndex % 256);
      pc := pc[runningTask := Entering(w)];
      assert State() == Goto(k, Entering(w));
      BeginKeeps(k, w, State(), shape);
    }

    /** The test in front of the wait loop, and `wait_init`. */
    method EnterWait(w: Wait)
      requires Valid() && At(State(), Entering(w))
      modifies this`pc, this`wnext
      ensures Enter(old(State()), w, State()) && Valid()
    {
      hide Core;
      ghost var k := State();
      if Condition(w, jiffies, keyIndex) {
        pc := pc[runningTask := Outside];
      } else {
        wnext := wnext[runningTask := Null];
        pc := pc[runningTask := Preparing(w)];
      }
      assert State() == if Holds(k, w) then Goto(k, Outside)
                        else Goto(k, Preparing(w)).(wnext := k.wnext[k.running := Null]);
      EnterKeeps(k, w, State(), shape);
    }

    /** `wait_prepare_to_wait` with TASK_INTERRUPTIBLE, and in it `wait_add_to_queue`. */
    method PrepareToWait(w: Wait)
      requires Valid() && At(State(), Preparing(w))
      modifies this`state, this`wnext, this`head, this`pc, this`shape
      ensures Prepare(old(State()), w, State()) && Valid()
      ensures shape == old(shape).SetChain(QueueOf(w), [runningTask] + old(shape).Chain(QueueOf(w)))
    {
      hide Core;
      ghost var k, sh := State(), shape;
      var q := QueueOf(w);
      QueueKnown(k, sh, q);
      state := state[runningTask := INTERRUPTIBLE];
      wnext := wnext[runningTask := head[q]];
      head := head[q := To(runningTask)];
      pc := pc[runningTask := Checking(w)];
      assert State() == Goto(Prepared(k, q), Checking(w));
      shape := PrepareKeeps(k, w, State(), sh);
    }

    /** The test inside the wait loop. */
    method CheckCondition(w: Wait) returns (holds: bool)
      requires Valid() && At(State(), Checking(w))
      modifies this`pc
      ensures Check(old(State()), w, State()) && Valid()
      ensures holds == Holds(State(), w)
    {
      hide Core;
      ghost var k := State();
      holds := Condition(w, jiffies, keyIndex);
      pc := pc[runningTask := if holds then Finishing(w) else Yielding(w)];
      assert State() == Goto(k, if holds then Finishing(w) else Yielding(w));
      CheckKeeps(k, w, State(), shape);
    }

    /** `wait_remove_from_queue`.  The loop never advances, so the caller must be at the head of the
        queue or the queue must be empty. */
    method RemoveFromQueue(q: Queue, entry: TaskId)
      requires q in head && entry in wnext
      requires RemoveTerminates(head[q], entry)
      modifies this`head
      ensures head == if old(head)[q] == To(entry) then old(head)[q := wnext[entry]] else old(head)
    {
      var curr := head[q];
      while curr != Null
        invariant curr == Null || (head == old(head) && curr == head[q])
        invariant curr == Null ==> head == if old(head)[q] == To(entry) then old(head)[q := wnext[entry]] else old(head)
        decreases curr != Null
      {
        if curr == To(entry) {
          head := head[q := wnext[entry]];
          curr := Null; // the return inside the loop
        }
      }
    }

    /** `wait_finish`; the invariant is what makes its loop come to an end. */
    method FinishWait(w: Wait)
      requires Valid() && At(State(), Finishing(w))
      modifies this`state, this`head, this`pc, this`shape
      ensures Finish(old(State()), w, State()) && Valid()
      ensures shape.ring == old(shape).ring && !Queued(shape, runningTask)
    {
      hide Core;
      ghost var k, sh := State(), shape;
      var q := QueueOf(w);
      FinishEnabled(k, sh, w);
      state := state[runningTask := RUNNING];
      RemoveFromQueue(q, runningTask);
      pc := pc[runningTask := Outside];
      assert State() == Goto(Finished(k, q), Outside);
      shape := FinishKeeps(k, w, State(), sh);
    }

    /** `wait_wake_up_interruptible`: terminates on every queue that ends. */
    method WakeUpInterruptible(q: Queue)
      requires q in head && Linked(head[q], wnext, shape.Chain(q))
      requires forall t :: t in shape.Chain(q) ==> t in state
      modifies this`state, this`head, this`shape
      ensures WakeUp(old(State()), q, State())
      ensures shape == old(shape).SetChain(q, [])
    {
      hide RingOf, Distinct, MakeRunning, Linked;
      ghost var k, s := State(), shape.Chain(q);
      ghost var rest := s;
      ghost var done: seq<TaskId> := [];
      MakeRunningNone(state);
      var wq := head[q];
      while wq != Null
        invariant s == done + rest && Linked(wq, wnext, rest)
        invariant q in head && head == k.head[q := wq]
        invariant state == MakeRunning(k.state, done)
        invariant shape == old(shape)
        decreases |rest|
      {
        LinkedStep(wq, wnext, rest);
        MakeRunningOne(k.state, done, wq.task);
        state := state[wq.task := RUNNING];
        head := head[q := wnext[wq.task]];
        wq := head[q];
        done, rest := done + [rest[0]], rest[1..];
      }
      LinkedEnd(wnext, rest);
      assert done == s;
      shape := shape.SetChain(q, []);
      assert WakeUpList(k, q, s, State());
    }

    /** `timer_handler`, through `scheduler_timer` */
    method TimerHandler()
      requires Valid()
      modifies this`jiffies, this`state, this`head, this`shape
      ensures TimerIrq(old(State()), State()) && Valid()
      ensures shape == old(shape).SetChain(TimerQueue, [])
    {
      hide Core;
      ghost var k, sh := State(), shape;
      QueueKnown(k, sh, TimerQueue);
      jiffies := (jiffies + 1) % TWO32;
      ghost var tick := State();
      assert tick == k.(jiffies := jiffies);
      WakeUpInterruptible(TimerQueue);
      shape := WakeUpKeeps(k, tick, TimerQueue, State(), sh);
    }

    /** `__kb_emit_keycode`, without the modifier keys */
    method EmitKeycode()
      requires Valid()
      modifies this`keyIndex, this`state, this`head, this`shape
      ensures KeyIrq(old(State()), State()) && Valid()
      ensures shape == old(shape).SetChain(KeyQueue, [])
    {
      hide Core;
      ghost var k, sh := State(), shape;
      QueueKnown(k, sh, KeyQueue);
      keyIndex := (keyIndex + 1) % KEY_RING_SIZE;
      ghost var press := State();
      assert press == k.(keyIndex := keyIndex);
      WakeUpInterruptible(KeyQueue);
      shape := WakeUpKeeps(k, press, KeyQueue, State(), sh);
    }
  }

  /** One entry of a queue, and the rest of it. */
  lemma LinkedStep(head: Ptr, wnext: map<TaskId, Ptr>, s: seq<TaskId>)
    requires Linked(head, wnext, s) && head != Null
    ensures |s| > 0 && head == To(s[0]) && s[0] in wnext && Linked(wnext[s[0]], wnext, s[1..]) && s == [s[0]] + s[1..]
  {
  }

  lemma LinkedEnd(wnext: map<TaskId, Ptr>, s: seq<TaskId>)
    requires Linked(Null, wnext, s)
    ensures s == []
  {
  }

  lemma CoreRing(k: Kernel, sh: Shape)
    requires Core(k, sh)
    ensures IsRing(k, sh.ring) && k.running in sh.ring && Known(k, k.running)
    ensures forall t :: t in sh.ring ==> t in k.state
  {
  }

  lemma NewOnRing(k: Kernel, sh: Shape, t: TaskId)
    requires Core(k, sh) && t !in k.next
    ensures IsRing(k, sh.ring) && t !in sh.ring
  {
  }

  lemma QueueKnown(k: Kernel, sh: Shape, q: Queue)
    requires Core(k, sh)
    ensures q in k.head && Linked(k.head[q], k.wnext, sh.Chain(q))
    ensures forall t :: t in sh.Chain(q) ==> t in k.state
  {
    assert QueueOk(k, sh, q);
  }

  lemma FinishEnabled(k: Kernel, sh: Shape, w: Wait)
    requires Core(k, sh) && At(k, Finishing(w))
    ensures QueueOf(w) in k.head && k.running in k.wnext && RemoveTerminates(k.head[QueueOf(w)], k.running)
  {
    assert TaskOk(k, sh, k.running);
    assert QueueOk(k, sh, QueueOf(w));
  }

  // ----- whole runs

  /** What happens next: an interrupt, or the running task goes on.  Where it stands outside the wait
      loop, it makes the call that is named, or only yields. */
  datatype Event = TimerInterrupt | KeyInterrupt | Proceed | Sleeps(ms: nat) | GetsKey | Creates(task: TaskId) | Exits

  /** The interrupts among the steps are those among the events. */
  ghost predicate EventMatches(e: Event, k: Kernel, k': Kernel) {
    (e == TimerInterrupt <==> TimerIrq(k, k')) && (e == KeyInterrupt <==> KeyIrq(k, k'))
  }

  lemma Matches(e: Event, k: Kernel, k': Kernel)
    requires k.jiffies < TWO32 && k.keyIndex < KEY_RING_SIZE
    requires if e == TimerInterrupt then TimerIrq(k, k')
             else if e == KeyInterrupt then KeyIrq(k, k')
             else k'.jiffies == k.jiffies && k'.keyIndex == k.keyIndex
    ensures EventMatches(e, k, k')
  {
    hide WakeUp;
    if TimerIrq(k, k') {
      WaitTimes.WakeUpCounts(k.(jiffies := (k.jiffies + 1) % TWO32), TimerQueue, k');
    }
    if KeyIrq(k, k') {
      WaitTimes.WakeUpCounts(k.(keyIndex := (k.keyIndex + 1) % KEY_RING_SIZE), KeyQueue, k');
    }
    WaitTimes.Advances(k.jiffies, TWO32);
    WaitTimes.Advances(k.keyIndex, KEY_RING_SIZE);
  }

  /** One event, handled by the routine that the kernel enters for it. */
  method Handle(s: SchedulerState, ghost idle: TaskId, isIdle: bool, e: Event)
    requires Inv(idle, s.State(), s.shape) && isIdle == (s.runningTask == idle)
    modifies s
    ensures Step(idle, old(s.State()), s.State()) && Inv(idle, s.State(), s.shape)
    ensures old(s.jiffies) < TWO32 && old(s.keyIndex) < KEY_RING_SIZE ==> EventMatches(e, old(s.State()), s.State())
  {
    hide Core, TimerIrq, KeyIrq, EventMatches;
    ghost var k, sh := s.State(), s.shape;
    CoreRing(k, sh);
    if e == TimerInterrupt {
      s.TimerHandler();
    } else if e == KeyInterrupt {
      s.EmitKeycode();
    } else {
      HandleTask(s, idle, isIdle, e);
    }
    if k.jiffies < TWO32 && k.keyIndex < KEY_RING_SIZE {
      Matches(e, k, s.State());
    }
    ghost var sh' := StepKeeps(idle, k, s.State(), sh);
    SameRing(idle, s.State(), s.shape, sh');
  }

  /** The invariant carries over to any reading of the ring. */
  lemma SameRing(idle: TaskId, k: Kernel, sh: Shape, sh': Shape)
    requires Core(k, sh) && Inv(idle, k, sh')
    ensures Inv(idle, k, sh)
  {
    CoreRing(k, sh);
    CoreRing(k, sh');
    RingUnique(k, sh'.ring, sh.ring);
  }

  /** The running task goes on. */
  method HandleTask(s: SchedulerState, ghost idle: TaskId, isIdle: bool, e: Event)
    requires Inv(idle, s.State(), s.shape) && isIdle == (s.runningTask == idle)
    modifies s
    ensures Step(idle, old(s.State()), s.State()) && s.Valid()
    ensures s.jiffies == old(s.jiffies) && s.keyIndex == old(s.keyIndex)
  {
    hide Core;
    ghost var k, sh := s.State(), s.shape;
    CoreRing(k, sh);
    IdleRuns(idle, k, sh);
    match s.pc[s.runningTask]
    case Entering(w) => s.EnterWait(w); assert LoopStep(k, w, s.State());
    case Preparing(w) => s.PrepareToWait(w); assert LoopStep(k, w, s.State());
    case Checking(w) => var holds := s.CheckCondition(w); assert LoopStep(k, w, s.State());
    case Yielding(w) => s.YieldRunning(); assert LoopStep(k, w, s.State());
    case Finishing(w) => s.FinishWait(w); assert LoopStep(k, w, s.State());
    case Outside => HandleCall(s, idle, isIdle, e);
  }

  method HandleCall(s: SchedulerState, ghost idle: TaskId, isIdle: bool, e: Event)
    requires Inv(idle, s.State(), s.shape) && isIdle == (s.runningTask == idle) && At(s.State(), Outside)
    modifies s
    ensures Step(idle, old(s.State()), s.State()) && s.Valid()
    ensures s.jiffies == old(s.jiffies) && s.keyIndex == old(s.keyIndex)
  {
    hide Core;
    ghost var k, sh := s.State(), s.shape;
    CoreRing(k, sh);
    if isIdle {
      s.YieldRunning();
      return;
    }
    match e
    case Sleeps(ms) => s.CallSleep(ms);
    case GetsKey => s.CallGetKey();
    case Creates(task) =>
      if task in s.next {
        s.YieldRunning();
      } else {
        s.CreateThread(task);
      }
    case Exits =>
      SuccessorKnown(k, sh);
      if s.state[s.next[s.runningTask]] == RUNNING {
        LastNeverExits(idle, k, sh);
        var shutdown := s.ExitRunning();
      } else {
        s.YieldRunning();
      }
    case _ => s.YieldRunning();
  }

  lemma SuccessorKnown(k: Kernel, sh: Shape)
    requires Core(k, sh)
    ensures k.running in k.next && k.next[k.running] in k.state
  {
    var i := IndexOf(sh.ring, k.running);
    assert LinkAt(k.next, sh.ring, i);
    assert sh.ring[Succ(i, |sh.ring|)] in sh.ring;
  }

  lemma LastNeverExits(idle: TaskId, k: Kernel, sh: Shape)
    requires Inv(idle, k, sh) && k.running != idle
    ensures |sh.ring| != 1
  {
    var i, j := IndexOf(sh.ring, idle), IndexOf(sh.ring, k.running);
    assert i != j;
  }

  /** The kernel from boot on, whatever events come in whatever order: the routines perform a run of the
      protocol, one step for each event. */
  method Drive(boot: TaskId, idle: TaskId, events: seq<Event>) returns (s: SchedulerState, ghost run: seq<Kernel>)
    requires boot != idle
    ensures IsRun(boot, idle, run) && |run| == |events| + 1 && run[|events|] == s.State()
    ensures forall n :: 0 <= n < |events| ==> EventMatches(events[n], run[n], run[n + 1])
    ensures Inv(idle, s.State(), s.shape)
  {
    hide Core, Step, EventMatches;
    s := new SchedulerState(boot);
    s.CreateThread(idle);
    run := [s.State()];
    assert s.State() == Booted(boot, idle);
    var i := 0;
    while i < |events|
      invariant 0 <= i <= |events| && |run| == i + 1 && fresh(s)
      invariant IsRun(boot, idle, run) && run[i] == s.State() && Inv(idle, s.State(), s.shape)
      invariant forall n :: 0 <= n < i ==> EventMatches(events[n], run[n], run[n + 1])
    {
      ghost var before := run;
      WaitTimes.Counters(boot, idle, run, i);
      Handle(s, idle, s.runningTask == idle, events[i]);
      run := run + [s.State()];
      RunGrows(boot, idle, before, s.State());
      i := i + 1;
    }
  }

  lemma RunGrows(boot: TaskId, idle: TaskId, run: seq<Kernel>, k: Kernel)
    requires IsRun(boot, idle, run) && Step(idle, run[|run| - 1], k)
    ensures IsRun(boot, idle, run + [k])
  {
    hide Step;
    var run' := run + [k];
    forall i | 0 <= i < |run'| - 1 ensures Step(idle, run'[i], run'[i + 1]) {
      if i < |run| - 1 {
        assert Step(idle, run[i], run[i + 1]);
      }
    }
  }
}
