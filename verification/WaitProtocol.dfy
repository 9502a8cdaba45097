/** The cooperative scheduler and its wait queues as a step machine.

    Task structures and the wait-queue entries that live on task stacks are named by task
    identifiers: a task is inside at most one wait loop, so it owns at most one entry.  All links are
    explicit pointers (`next` for the task ring, `wnext` for queue entries), so a cyclic queue or a
    broken ring is an expressible state, and a loop that would run forever in such a state is a step
    that is not enabled.  */
module WaitProtocol {

  type TaskId = nat

  datatype TaskState = RUNNING | INTERRUPTIBLE | UNINTERRUPTIBLE

  datatype Queue = TimerQueue | KeyQueue

  /** A pointer to a queue entry. */
  datatype Ptr = Null | To(task: TaskId)

  /** What a waiter waits for: the arguments that the wait condition captured. */
  datatype Wait = Sleep(start: nat, ms: nat) | Key(seen: nat)

  /** Where a task stands in `WAIT_EVENT_INTERRUPTIBLE`.  A task that has been switched out by the
      yield inside the loop stands at `Preparing`, which is where it continues. */
  datatype Pc =
    | Outside
    | Entering(w: Wait)
    | Preparing(w: Wait)
    | Checking(w: Wait)
    | Yielding(w: Wait)
    | Finishing(w: Wait)

  datatype Kernel = Kernel(
    tasks: TaskId,
    tail: TaskId,
    running: TaskId,
    next: map<TaskId, TaskId>,
    state: map<TaskId, TaskState>,
    head: map<Queue, Ptr>,
    wnext: map<TaskId, Ptr>,
    pc: map<TaskId, Pc>,
    jiffies: nat,
    keyIndex: nat)

  const TWO32: nat := 0x1_0000_0000
  const TWO64: nat := 0x1_0000_0000_0000_0000
  const HZ: nat := 200
  const KEY_RING_SIZE: nat := 128

  // ----- wait conditions

  /** `timer_range_to_ms`, in 64-bit unsigned arithmetic. */
  function TimerRangeToMs(start: nat, end: nat): nat {
    (((end - start) % TWO64) * 1000 % TWO64) / HZ
  }

  function QueueOf(w: Wait): Queue {
    match w
    case Sleep(_, _) => TimerQueue
    case Key(_) => KeyQueue
  }

  predicate Condition(w: Wait, jiffies: nat, keyIndex: nat) {
    match w
    case Sleep(start, ms) => TimerRangeToMs(start, jiffies) >= ms
    case Key(seen) => keyIndex % 256 != seen
  }

  predicate Holds(k: Kernel, w: Wait) {
    Condition(w, k.jiffies, k.keyIndex)
  }

  // ----- what the pointer-chasing loops compute

  /** `s` is the list of entries reached from `head`; it exists only if the list ends. */
  ghost predicate Linked(head: Ptr, wnext: map<TaskId, Ptr>, s: seq<TaskId>)
    decreases |s|
  {
    if |s| == 0 then head == Null
    else head == To(s[0]) && s[0] in wnext && Linked(wnext[s[0]], wnext, s[1..])
  }

  ghost predicate Distinct(s: seq<TaskId>) {
    forall i, j :: 0 <= i < j < |s| ==> s[i] != s[j]
  }

  /** The task `n` ring links after `t`. */
  ghost function Walk(next: map<TaskId, TaskId>, t: TaskId, n: nat): TaskId {
    if n == 0 then t
    else
      var u := Walk(next, t, n - 1);
      if u in next then next[u] else u
  }

  /** What the loop of `scheduler_next_running_task` stops at, whatever the shape of the links. */
  ghost predicate StopsAfter(k: Kernel, t: TaskId, n: nat) {
    && 1 <= n
    && (var r := Walk(k.next, t, n); r == t || (r in k.state && k.state[r] == RUNNING))
    && forall m :: 1 <= m < n ==>
         var c := Walk(k.next, t, m); c != t && c in k.state && k.state[c] != RUNNING
  }

  ghost predicate IsNextRunning(k: Kernel, t: TaskId, r: TaskId) {
    exists n :: StopsAfter(k, t, n) && r == Walk(k.next, t, n)
  }

  function Succ(i: nat, size: nat): nat {
    if i + 1 < size then i + 1 else 0
  }

  ghost predicate LinkAt(next: map<TaskId, TaskId>, ring: seq<TaskId>, i: nat)
    requires i < |ring|
  {
    ring[i] in next && next[ring[i]] == ring[Succ(i, |ring|)]
  }

  /** `ring` is the cycle of tasks, from `tasks` to `tasks_tail`. */
  ghost predicate RingOf(next: map<TaskId, TaskId>, tasks: TaskId, tail: TaskId, ring: seq<TaskId>) {
    && 1 <= |ring|
    && Distinct(ring)
    && tasks == ring[0]
    && tail == ring[|ring| - 1]
    && forall i :: 0 <= i < |ring| ==> LinkAt(next, ring, i)
  }

  ghost predicate IsRing(k: Kernel, ring: seq<TaskId>) {
    RingOf(k.next, k.tasks, k.tail, ring)
  }

  // ----- atomic steps: interrupt handlers

  /** `wait_wake_up_interruptible`: drain the queue, making every owner RUNNING. */
  ghost predicate WakeUp(k: Kernel, q: Queue, k': Kernel) {
    exists s :: WakeUpList(k, q, s, k')
  }

  ghost predicate WakeUpList(k: Kernel, q: Queue, s: seq<TaskId>, k': Kernel) {
    && q in k.head
    && Linked(k.head[q], k.wnext, s)
    && k' == k.(head := k.head[q := Null], state := MakeRunning(k.state, s))
  }

  ghost function MakeRunning(state: map<TaskId, TaskState>, s: seq<TaskId>): map<TaskId, TaskState> {
    map t | t in state :: if t in s then RUNNING else state[t]
  }

  /** `timer_handler`. */
  ghost predicate TimerIrq(k: Kernel, k': Kernel) {
    WakeUp(k.(jiffies := (k.jiffies + 1) % TWO32), TimerQueue, k')
  }

  /** `__kb_emit_keycode`. */
  ghost predicate KeyIrq(k: Kernel, k': Kernel) {
    WakeUp(k.(keyIndex := (k.keyIndex + 1) % KEY_RING_SIZE), KeyQueue, k')
  }

  // ----- atomic steps: the running task

  predicate At(k: Kernel, p: Pc) {
    k.running in k.pc && k.pc[k.running] == p
  }

  function Goto(k: Kernel, p: Pc): Kernel {
    k.(pc := k.pc[k.running := p])
  }

  /** A task calls `scheduler_sleep` or `kb_getkey`, capturing what its condition compares with. */
  ghost predicate Begin(k: Kernel, w: Wait, k': Kernel) {
    && At(k, Outside)
    && (w.Sleep? ==> w.start == k.jiffies)
    && (w.Key? ==> w.seen == k.keyIndex % 256)
    && k' == Goto(k, Entering(w))
  }

  /** The test in front of the loop; when it fails, `wait_init` sets up the entry. */
  ghost predicate Enter(k: Kernel, w: Wait, k': Kernel) {
    && At(k, Entering(w))
    && k' == if Holds(k, w) then Goto(k, Outside)
             else Goto(k, Preparing(w)).(wnext := k.wnext[k.running := Null])
  }

  /** `wait_prepare_to_wait` with TASK_INTERRUPTIBLE. */
  function Prepared(k: Kernel, q: Queue): Kernel
    requires q in k.head
  {
    k.(state := k.state[k.running := INTERRUPTIBLE],
       wnext := k.wnext[k.running := k.head[q]],
       head := k.head[q := To(k.running)])
  }

  ghost predicate Prepare(k: Kernel, w: Wait, k': Kernel) {
    && At(k, Preparing(w))
    && QueueOf(w) in k.head
    && k' == Goto(Prepared(k, QueueOf(w)), Checking(w))
  }

  ghost predicate Check(k: Kernel, w: Wait, k': Kernel) {
    && At(k, Checking(w))
    && k' == Goto(k, if Holds(k, w) then Finishing(w) else Yielding(w))
  }

  /** `scheduler_yield`, up to the next time the caller is switched to. */
  ghost predicate Yield(k: Kernel, k': Kernel) {
    exists r :: IsNextRunning(k, k.running, r) && k' == k.(running := r)
  }

  ghost predicate YieldInLoop(k: Kernel, w: Wait, k': Kernel) {
    At(k, Yielding(w)) && Yield(Goto(k, Preparing(w)), k')
  }

  /** Whether `wait_remove_from_queue` terminates: it never advances past the head of the queue. */
  predicate RemoveTerminates(head: Ptr, entry: TaskId) {
    head == Null || head == To(entry)
  }

  /** `wait_finish`. */
  function Finished(k: Kernel, q: Queue): Kernel
    requires q in k.head && k.running in k.wnext
  {
    k.(state := k.state[k.running := RUNNING],
       head := if k.head[q] == To(k.running) then k.head[q := k.wnext[k.running]] else k.head)
  }

  ghost predicate Finish(k: Kernel, w: Wait, k': Kernel) {
    && At(k, Finishing(w))
    && QueueOf(w) in k.head && k.running in k.wnext
    && RemoveTerminates(k.head[QueueOf(w)], k.running)
    && k' == Goto(Finished(k, QueueOf(w)), Outside)
  }

  /** `tasks_insert` of a new task. */
  function Inserted(k: Kernel, t: TaskId): Kernel {
    k.(next := k.next[t := k.tasks][k.tail := t],
       tail := t,
       state := k.state[t := RUNNING],
       wnext := k.wnext[t := Null],
       pc := k.pc[t := Outside])
  }

  /** `scheduler_create_thread`: `task_inherit` returns a structure not used before. */
  ghost predicate Create(k: Kernel, t: TaskId, k': Kernel) {
    At(k, Outside) && t !in k.next && k' == Inserted(k, t)
  }

  /** `tasks_remove` of the task at position `i` of the ring. */
  function Removed(k: Kernel, ring: seq<TaskId>, i: nat): Kernel
    requires i < |ring|
  {
    var from := ring[i];
    var succ := if from in k.next then k.next[from] else from;
    if i == 0 then k.(next := k.next[k.tail := succ], tasks := succ)
    else k.(next := k.next[ring[i - 1] := succ],
            tail := if k.tail == from then ring[i - 1] else k.tail)
  }

  /** `scheduler_exit` on a ring of two or more; its successor is switched to as it stands. */
  ghost predicate ExitAt(k: Kernel, ring: seq<TaskId>, i: nat, k': Kernel) {
    && At(k, Outside)
    && IsRing(k, ring)
    && i < |ring| && ring[i] == k.running
    && k.running in k.next && k.next[k.running] != k.running
    && k' == Removed(k, ring, i).(running := k.next[k.running])
  }

  ghost predicate Exit(k: Kernel, k': Kernel) {
    exists ring, i :: ExitAt(k, ring, i, k')
  }

  ghost predicate SuccessorRuns(k: Kernel) {
    k.running in k.next && k.next[k.running] in k.state && k.state[k.next[k.running]] == RUNNING
  }

  // ----- runs

  ghost predicate Interrupt(k: Kernel, k': Kernel) {
    TimerIrq(k, k') || KeyIrq(k, k')
  }

  /** One step of the wait loop of the running task. */
  ghost predicate LoopStep(k: Kernel, w: Wait, k': Kernel) {
    || Enter(k, w, k')
    || Prepare(k, w, k')
    || Check(k, w, k')
    || YieldInLoop(k, w, k')
    || Finish(k, w, k')
  }

  /** Any step of the system.  The idle task only yields, and a task exits only when its successor
      is RUNNING. */
  ghost predicate Step(idle: TaskId, k: Kernel, k': Kernel) {
    || Interrupt(k, k')
    || (exists w :: LoopStep(k, w, k'))
    || (At(k, Outside) && Yield(k, k'))
    || (k.running != idle && exists w :: Begin(k, w, k'))
    || (k.running != idle && exists t :: Create(k, t, k'))
    || (k.running != idle && SuccessorRuns(k) && Exit(k, k'))
  }

  /** `scheduler_initialize`: the wrapped boot thread alone on the ring. */
  function Initialized(boot: TaskId): Kernel {
    Kernel(boot, boot, boot, map[boot := boot], map[boot := RUNNING],
           map[TimerQueue := Null, KeyQueue := Null], map[boot := Null], map[boot := Outside], 0, 0)
  }

  /** The state in which `kernel_main` has created the idle thread. */
  function Booted(boot: TaskId, idle: TaskId): Kernel {
    Inserted(Initialized(boot), idle)
  }

  /** `run` starts at boot and every state is followed by a step. */
  ghost predicate IsRun(boot: TaskId, idle: TaskId, run: seq<Kernel>) {
    && boot != idle
    && 1 <= |run|
    && run[0] == Booted(boot, idle)
    && forall i :: 0 <= i < |run| - 1 ==> Step(idle, run[i], run[i + 1])
  }

  // ----- the invariant

  /** The sequences that the pointers of a state spell out. */
  datatype Shape = Shape(ring: seq<TaskId>, timer: seq<TaskId>, key: seq<TaskId>) {
    function Chain(q: Queue): seq<TaskId> {
      if q == TimerQueue then timer else key
    }
    function SetChain(q: Queue, s: seq<TaskId>): Shape {
      if q == TimerQueue then this.(timer := s) else this.(key := s)
    }
  }

  ghost predicate Queued(sh: Shape, t: TaskId) {
    t in sh.timer || t in sh.key
  }

  /** Entry of the running task, between preparing and finishing: at the head, or the queue is
      empty. */
  ghost predicate FreshAtHead(k: Kernel, sh: Shape, t: TaskId, w: Wait) {
    && t == k.running
    && (sh.Chain(QueueOf(w)) == [] || sh.Chain(QueueOf(w))[0] == t)
  }

  function Other(q: Queue): Queue {
    if q == TimerQueue then KeyQueue else TimerQueue
  }

  /** Asleep exactly when queued, and queued only on the queue waited for. */
  ghost predicate SleepsOn(k: Kernel, sh: Shape, t: TaskId, w: Wait)
    requires t in k.state
  {
    && (k.state[t] == INTERRUPTIBLE <==> t in sh.Chain(QueueOf(w)))
    && t !in sh.Chain(Other(QueueOf(w)))
  }

  ghost predicate TaskOk(k: Kernel, sh: Shape, t: TaskId)
    requires t in k.state && t in k.pc
  {
    && k.state[t] != UNINTERRUPTIBLE
    && match k.pc[t]
       case Outside => k.state[t] == RUNNING && !Queued(sh, t)
       case Entering(w) => t == k.running && k.state[t] == RUNNING && !Queued(sh, t)
       case Preparing(w) =>
         && SleepsOn(k, sh, t, w)
         && (t == k.running ==> k.state[t] == RUNNING)
         && (k.state[t] == INTERRUPTIBLE ==> !Holds(k, w))
       case Checking(w) => SleepsOn(k, sh, t, w) && FreshAtHead(k, sh, t, w)
       case Yielding(w) =>
         && SleepsOn(k, sh, t, w) && FreshAtHead(k, sh, t, w)
         && (k.state[t] == INTERRUPTIBLE ==> !Holds(k, w))
       case Finishing(w) => SleepsOn(k, sh, t, w) && FreshAtHead(k, sh, t, w)
  }

  ghost predicate QueueOk(k: Kernel, sh: Shape, q: Queue) {
    && q in k.head
    && Linked(k.head[q], k.wnext, sh.Chain(q))
    && Distinct(sh.Chain(q))
    && forall t :: t in sh.Chain(q) ==> t in sh.ring
  }

  /** Some task of the ring can run. */
  ghost predicate SomeoneRuns(k: Kernel, ring: seq<TaskId>) {
    exists t :: t in ring && t in k.state && k.state[t] == RUNNING
  }

  ghost predicate Known(k: Kernel, t: TaskId) {
    t in k.next && t in k.state && t in k.pc && t in k.wnext
  }

  /** The protocol invariant, without the idle task. */
  ghost predicate Core(k: Kernel, sh: Shape) {
    && IsRing(k, sh.ring)
    && k.running in sh.ring
    && (forall t :: t in sh.ring ==> Known(k, t))
    && QueueOk(k, sh, TimerQueue)
    && QueueOk(k, sh, KeyQueue)
    && (forall t :: t in sh.ring ==> TaskOk(k, sh, t))
  }

  ghost predicate Inv(idle: TaskId, k: Kernel, sh: Shape) {
    Core(k, sh) && idle in sh.ring && k.pc[idle] == Outside
  }
}
