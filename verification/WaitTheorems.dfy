/** What holds in every state that any interleaving of task steps and interrupts can reach. */
module WaitTheorems {
  import opened WaitProtocol
  import opened WaitInvariant

  ghost predicate Reachable(boot: TaskId, idle: TaskId, k: Kernel) {
    exists run :: IsRun(boot, idle, run) && run[|run| - 1] == k
  }

  lemma {:induction false} RunInv(boot: TaskId, idle: TaskId, run: seq<Kernel>) returns (sh: Shape)
    requires IsRun(boot, idle, run)
    ensures Inv(idle, run[|run| - 1], sh)
    decreases |run|
  {
    var n := |run| - 1;
    if n == 0 {
      BootedInv(boot, idle);
      sh := Shape([boot, idle], [], []);
    } else {
      var before := RunInv(boot, idle, run[..n]);
      assert run[..n][n - 1] == run[n - 1];
      assert Step(idle, run[n - 1], run[n - 1 + 1]);
      sh := StepKeeps(idle, run[n - 1], run[n], before);
    }
  }

  /** The invariant holds in every reachable state. */
  lemma ReachableInv(boot: TaskId, idle: TaskId, k: Kernel) returns (sh: Shape)
    requires Reachable(boot, idle, k)
    ensures Inv(idle, k, sh)
  {
    var run :| IsRun(boot, idle, run) && run[|run| - 1] == k;
    sh := RunInv(boot, idle, run);
  }

  // ----- wait queues

  predicate InLoop(p: Pc, q: Queue) {
    (p.Preparing? || p.Checking? || p.Yielding? || p.Finishing?) && QueueOf(p.w) == q
  }

  ghost predicate SoundQueue(k: Kernel, q: Queue, s: seq<TaskId>) {
    && q in k.head
    && Linked(k.head[q], k.wnext, s)
    && Distinct(s)
    && forall t :: t in s ==> t in k.pc && InLoop(k.pc[t], q)
  }

  /** The task ring is one cycle through the running task; each queue ends, repeats no entry and
      holds only entries of tasks still inside their wait loop on it; and a task is INTERRUPTIBLE
      exactly when its entry is on exactly one queue. */
  ghost predicate Sound(k: Kernel, ring: seq<TaskId>, timer: seq<TaskId>, key: seq<TaskId>) {
    && IsRing(k, ring) && k.running in ring
    && SoundQueue(k, TimerQueue, timer) && SoundQueue(k, KeyQueue, key)
    && (forall t :: t in timer || t in key ==> t in ring)
    && forall t :: t in ring ==>
         t in k.state && (k.state[t] == INTERRUPTIBLE <==> ((t in timer) != (t in key)))
  }

  lemma QueuesSound(boot: TaskId, idle: TaskId, k: Kernel)
    requires Reachable(boot, idle, k)
    ensures exists ring, timer, key :: Sound(k, ring, timer, key)
  {
    hide RingOf, Distinct;
    var sh := ReachableInv(boot, idle, k);
    assert sh.timer == sh.Chain(TimerQueue) && sh.key == sh.Chain(KeyQueue);
    forall t | t in sh.ring
      ensures k.state[t] == INTERRUPTIBLE <==> ((t in sh.timer) != (t in sh.key))
      ensures t in sh.timer ==> InLoop(k.pc[t], TimerQueue)
      ensures t in sh.key ==> InLoop(k.pc[t], KeyQueue)
    {
      assert TaskOk(k, sh, t);
    }
    assert Sound(k, sh.ring, sh.timer, sh.key);
  }

  /** No lost wake-up: outside a handler, nobody who is asleep past the check of its condition has a
      condition that holds. */
  lemma NoLostWakeUp(boot: TaskId, idle: TaskId, k: Kernel, t: TaskId, w: Wait)
    requires Reachable(boot, idle, k)
    requires t in k.state && t in k.pc && exists ring :: IsRing(k, ring) && t in ring
    requires k.state[t] == INTERRUPTIBLE
    requires k.pc[t] == Yielding(w) || k.pc[t] == Preparing(w)
    ensures !Holds(k, w)
  {
    var sh := ReachableInv(boot, idle, k);
    var ring :| IsRing(k, ring) && t in ring;
    RingUnique(k, ring, sh.ring);
    assert TaskOk(k, sh, t);
  }

  /** Whenever a task is about to call `wait_finish`, its queue is empty or headed by its own entry,
      so the call completes. */
  lemma FinishCompletes(boot: TaskId, idle: TaskId, k: Kernel, w: Wait)
    requires Reachable(boot, idle, k) && At(k, Finishing(w))
    ensures QueueOf(w) in k.head && RemoveTerminates(k.head[QueueOf(w)], k.running)
    ensures exists k' :: Finish(k, w, k')
  {
    var sh := ReachableInv(boot, idle, k);
    assert TaskOk(k, sh, k.running);
    assert QueueOk(k, sh, QueueOf(w));
    assert Finish(k, w, Goto(Finished(k, QueueOf(w)), Outside));
  }

  /** The timer handler completes in every reachable state; it leaves its queue empty and everyone
      who slept there RUNNING. */
  lemma TimerCompletes(boot: TaskId, idle: TaskId, k: Kernel)
    requires Reachable(boot, idle, k)
    ensures exists k' :: TimerIrq(k, k')
    ensures forall k', t :: TimerIrq(k, k') && OnRing(k, t) ==> Woken(k, k', TimerQueue, t)
  {
    var sh := ReachableInv(boot, idle, k);
    var tick := k.(jiffies := (k.jiffies + 1) % TWO32);
    WakeCompletes(idle, k, tick, TimerQueue, sh);
    var k' :| WakeUp(tick, TimerQueue, k');
    assert TimerIrq(k, k');
  }

  /** So does the keyboard handler. */
  lemma KeyCompletes(boot: TaskId, idle: TaskId, k: Kernel)
    requires Reachable(boot, idle, k)
    ensures exists k' :: KeyIrq(k, k')
    ensures forall k', t :: KeyIrq(k, k') && OnRing(k, t) ==> Woken(k, k', KeyQueue, t)
  {
    var sh := ReachableInv(boot, idle, k);
    var press := k.(keyIndex := (k.keyIndex + 1) % KEY_RING_SIZE);
    WakeCompletes(idle, k, press, KeyQueue, sh);
    var k' :| WakeUp(press, KeyQueue, k');
    assert KeyIrq(k, k');
  }

  lemma WakeCompletes(idle: TaskId, k: Kernel, tick: Kernel, q: Queue, sh: Shape)
    requires Inv(idle, k, sh)
    requires tick == k.(jiffies := tick.jiffies, keyIndex := tick.keyIndex)
    ensures exists k' :: WakeUp(tick, q, k')
    ensures forall k', t :: WakeUp(tick, q, k') && OnRing(k, t) ==> Woken(k, k', q, t)
  {
    assert QueueOk(k, sh, q);
    DrainEnds(tick, q, sh.Chain(q));
    forall k', t | WakeUp(tick, q, k') && OnRing(k, t) ensures Woken(k, k', q, t) {
      WakesAll(idle, k, tick, q, k', sh, t);
    }
  }

  lemma DrainEnds(k: Kernel, q: Queue, s: seq<TaskId>)
    requires q in k.head && Linked(k.head[q], k.wnext, s)
    ensures exists k' :: WakeUp(k, q, k')
  {
    var k' := k.(head := k.head[q := Null], state := MakeRunning(k.state, s));
    assert WakeUpList(k, q, s, k');
    assert WakeUp(k, q, k');
  }

  lemma LoopersRunOrSleepThere(idle: TaskId, k: Kernel, sh: Shape, t: TaskId, q: Queue)
    requires Inv(idle, k, sh) && OnRing(k, t)
    ensures t in k.pc && t in k.state
    ensures InLoop(k.pc[t], q) ==> k.state[t] == RUNNING || t in sh.Chain(q)
  {
    hide RingOf, QueueOk;
    var ring :| IsRing(k, ring) && t in ring;
    RingUnique(k, ring, sh.ring);
    assert TaskOk(k, sh, t);
  }

  /** After the wake-up of `q` the queue is empty, and `t` is RUNNING if it is in a wait loop on it. */
  ghost predicate Woken(k: Kernel, k': Kernel, q: Queue, t: TaskId) {
    && q in k'.head && k'.head[q] == Null
    && (t in k.pc && InLoop(k.pc[t], q) ==> t in k'.state && k'.state[t] == RUNNING)
  }

  ghost predicate OnRing(k: Kernel, t: TaskId) {
    exists ring :: IsRing(k, ring) && t in ring
  }

  lemma WakesAll(idle: TaskId, k: Kernel, tick: Kernel, q: Queue, k': Kernel, sh: Shape, t: TaskId)
    requires Inv(idle, k, sh)
    requires tick == k.(jiffies := tick.jiffies, keyIndex := tick.keyIndex)
    requires WakeUp(tick, q, k')
    requires OnRing(k, t)
    ensures Woken(k, k', q, t)
  {
    LoopersRunOrSleepThere(idle, k, sh, t, q);
    assert QueueOk(k, sh, q);
    var s :| WakeUpList(tick, q, s, k');
    LinkedUnique(k.head[q], k.wnext, s, sh.Chain(q));
  }

  // ----- what happens outside the invariant

  ghost predicate Ends(head: Ptr, wnext: map<TaskId, Ptr>) {
    exists s :: Linked(head, wnext, s)
  }

  /** The entry of `t`, once queued, must not be queued again: the result has an end exactly when the
      entry was not on the queue. */
  lemma PushEndsIff(head: Ptr, wnext: map<TaskId, Ptr>, s: seq<TaskId>, t: TaskId)
    requires Linked(head, wnext, s)
    ensures Ends(To(t), wnext[t := head]) <==> t !in s
  {
    if t !in s {
      LinkedPush(head, wnext, s, t);
    } else if Ends(To(t), wnext[t := head]) {
      var s' :| Linked(To(t), wnext[t := head], s');
      var n := ReachesAgain(head, wnext, s, t, head, s'[1..]);
      LinkedUnique(To(t), wnext[t := head], s', s'[1..][n..]);
      assert false;
    }
  }

  lemma {:induction false} ReachesAgain(head: Ptr, wnext: map<TaskId, Ptr>, s: seq<TaskId>, t: TaskId, p: Ptr,
                                        s': seq<TaskId>) returns (n: nat)
    requires Linked(head, wnext, s) && t in s
    requires Linked(head, wnext[t := p], s')
    ensures n < |s'| && Linked(To(t), wnext[t := p], s'[n..])
    decreases |s|
  {
    if s[0] == t {
      n := 0;
      assert s'[0..] == s';
    } else {
      n := ReachesAgain(wnext[s[0]], wnext, s[1..], t, p, s'[1..]);
      assert s'[1..][n..] == s'[n + 1..];
      n := n + 1;
    }
  }

  /** A running task that stands in front of the loop body but is not RUNNING breaks the protocol. */
  lemma NotResumable(k: Kernel)
    requires k.running in k.state && k.state[k.running] != RUNNING
    requires k.running in k.pc && (k.pc[k.running].Outside? || k.pc[k.running].Preparing?)
    ensures !exists sh :: Core(k, sh)
  {
    forall sh ensures !Core(k, sh) {
      if Core(k, sh) && TaskOk(k, sh, k.running) {
        assert false;
      }
    }
  }

  /** A sleeper that nobody else can run instead of returns from its own yield still queued: the
      in-loop yield keeps the protocol invariant exactly when the caller has been woken already or
      some other task of the ring is RUNNING.  This is what the idle task is for. */
  lemma YieldInLoopSafeIff(k: Kernel, w: Wait, k': Kernel, sh: Shape)
    requires Core(k, sh) && YieldInLoop(k, w, k')
    ensures (exists sh' :: Core(k', sh')) <==> SomeoneRuns(k, sh.ring)
  {
    hide RingOf, Distinct;
    var g, r := Goto(k, Preparing(w)), k.running;
    assert IsRing(g, sh.ring);
    PickedRuns(g, sh.ring, r, k'.running);
    if SomeoneRuns(k, sh.ring) {
      YieldInLoopKeeps(k, w, k', sh);
    } else {
      assert TaskOk(k, sh, r);
      NotResumable(k');
    }
  }

  /** A queue in which `wait_wake_up_interruptible` comes to an end. */
  ghost predicate Wakeable(k: Kernel, q: Queue) {
    exists k' :: WakeUp(k, q, k')
  }

  lemma WakeableIffEnds(k: Kernel, q: Queue)
    requires q in k.head
    ensures Wakeable(k, q) <==> Ends(k.head[q], k.wnext)
  {
    if Ends(k.head[q], k.wnext) {
      var s :| Linked(k.head[q], k.wnext, s);
      DrainEnds(k, q, s);
    }
    if k' :| WakeUp(k, q, k') {
      var s :| WakeUpList(k, q, s, k');
      assert Linked(k.head[q], k.wnext, s);
    }
  }

  /** The running task prepares to wait: the next wake-up of its queue comes to an end exactly when
      its entry was not on the queue. */
  lemma PreparedWakeableIff(k: Kernel, w: Wait, k': Kernel, s: seq<TaskId>)
    requires Prepare(k, w, k') && Linked(k.head[QueueOf(w)], k.wnext, s)
    ensures Wakeable(k', QueueOf(w)) <==> k.running !in s
  {
    var q := QueueOf(w);
    PushEndsIff(k.head[q], k.wnext, s, k.running);
    WakeableIffEnds(k', q);
  }

  /** What goes wrong when nobody can run: the caller goes round its loop and queues its entry a second
      time, and the handler that is to wake it never comes to an end. */
  lemma YieldThenPrepareIff(k: Kernel, w: Wait, k': Kernel, w': Wait, k'': Kernel, sh: Shape)
    requires Core(k, sh) && YieldInLoop(k, w, k') && Prepare(k', w', k'')
    ensures Wakeable(k'', QueueOf(w')) <==> SomeoneRuns(k, sh.ring)
  {
    hide RingOf, Distinct, Prepare;
    var g, r := Goto(k, Preparing(w)), k.running;
    assert IsRing(g, sh.ring);
    PickedRuns(g, sh.ring, r, k'.running);
    assert TaskOk(k, sh, r) && TaskOk(k, sh, k'.running);
    assert At(k', Preparing(w')) by { PrepareAt(k', w', k''); }
    assert QueueOk(k, sh, QueueOf(w'));
    PreparedWakeableIff(k', w', k'', sh.Chain(QueueOf(w')));
    if SomeoneRuns(k, sh.ring) {
      var t :| t in sh.ring && t in k.state && k.state[t] == RUNNING;
      if t != r {
        PicksAnother(g, sh.ring, r, t, k'.running);
      }
    }
  }

  lemma PrepareAt(k: Kernel, w: Wait, k': Kernel)
    requires Prepare(k, w, k')
    ensures At(k, Preparing(w))
  {
  }

  /** An exiting task hands the processor to its ring successor as it stands: the exit keeps the
      protocol invariant exactly when that successor is RUNNING. */
  lemma ExitSafeIff(k: Kernel, ring: seq<TaskId>, i: nat, k': Kernel, sh: Shape)
    requires Core(k, sh) && ExitAt(k, ring, i, k')
    ensures (exists sh' :: Core(k', sh')) <==> SuccessorRuns(k)
  {
    RingUnique(k, ring, sh.ring);
    assert LinkAt(k.next, ring, i);
    var r := ring[Succ(i, |ring|)];
    assert r in sh.ring && k'.running == r;
    assert TaskOk(k, sh, r);
    if SuccessorRuns(k) {
      var sh' := ExitKeeps(k, k', sh, ring, i);
    } else {
      NotResumable(k');
    }
  }

  /** What goes wrong when a sleeper is switched to: it queues its entry a second time. */
  lemma ExitThenPrepareIff(k: Kernel, ring: seq<TaskId>, i: nat, k': Kernel, w: Wait, k'': Kernel, sh: Shape)
    requires Core(k, sh) && ExitAt(k, ring, i, k') && Prepare(k', w, k'')
    ensures Wakeable(k'', QueueOf(w)) <==> SuccessorRuns(k)
  {
    hide RingOf, Distinct, Prepare;
    RingUnique(k, ring, sh.ring);
    SuccessorOnRing(k, ring, i);
    assert TaskOk(k, sh, k'.running);
    assert At(k', Preparing(w)) by { PrepareAt(k', w, k''); }
    assert QueueOk(k, sh, QueueOf(w));
    PreparedWakeableIff(k', w, k'', sh.Chain(QueueOf(w)));
  }

  lemma SuccessorOnRing(k: Kernel, ring: seq<TaskId>, i: nat)
    requires IsRing(k, ring) && i < |ring|
    ensures ring[i] in k.next && k.next[ring[i]] in ring
  {
    assert LinkAt(k.next, ring, i);
  }

  /** One task, past the check of a sleep and alone. */
  function LoneSleeper(pc: Pc): Kernel {
    Kernel(0, 0, 0, map[0 := 0], map[0 := INTERRUPTIBLE], map[TimerQueue := To(0), KeyQueue := Null],
           map[0 := Null], map[0 := pc], 0, 0)
  }

  /** Such a state satisfies the invariant, and the yield and the preparation that follow lead to a
      timer queue that no handler gets through. */
  lemma LoneSleeperFails() returns (k: Kernel, k': Kernel, k'': Kernel)
    ensures Core(k, Shape([0], [0], [])) && YieldInLoop(k, Sleep(0, 100), k') && Prepare(k', Sleep(0, 100), k'')
    ensures !Wakeable(k'', TimerQueue)
  {
    var w := Sleep(0, 100);
    k, k' := LoneSleeper(Yielding(w)), LoneSleeper(Preparing(w));
    k'' := Goto(Prepared(k', TimerQueue), Checking(w));
    var sh := Shape([0], [0], []);
    assert LinkAt(k.next, sh.ring, 0);
    assert Linked(Null, k.wnext, sh.timer[1..]);
    assert QueueOk(k, sh, TimerQueue) && QueueOk(k, sh, KeyQueue);
    assert TaskOk(k, sh, 0);
    assert Goto(k, Preparing(w)) == k';
    assert Walk(k'.next, 0, 1) == 0 by {
      assert Walk(k'.next, 0, 0) == 0;
    }
    assert StopsAfter(k', 0, 1);
    YieldThenPrepareIff(k, w, k', w, k'', sh);
  }

  /** Two tasks, of which the second sleeps. */
  function SleepingSuccessor(running: TaskId): Kernel {
    var ring2 := map[0 := 1, 1 := 0];
    Kernel(0, 1, running, ring2, map[0 := RUNNING, 1 := INTERRUPTIBLE],
           map[TimerQueue := To(1), KeyQueue := Null], map[0 := Null, 1 := Null],
           map[0 := Outside, 1 := Preparing(Sleep(0, 100))], 0, 0)
  }

  /** An exit of the first one switches to the second, whose entry is then queued twice. */
  lemma SleepingSuccessorFails() returns (k: Kernel, k': Kernel, k'': Kernel)
    ensures Core(k, Shape([0, 1], [1], [])) && ExitAt(k, [0, 1], 0, k') && Prepare(k', Sleep(0, 100), k'')
    ensures !Wakeable(k'', TimerQueue)
  {
    var w := Sleep(0, 100);
    k := SleepingSuccessor(0);
    var ring := [0, 1];
    k' := Removed(k, ring, 0).(running := 1);
    k'' := Goto(Prepared(k', TimerQueue), Checking(w));
    var sh := Shape(ring, [1], []);
    assert LinkAt(k.next, ring, 0) && LinkAt(k.next, ring, 1);
    assert IsRing(k, ring);
    assert Linked(Null, k.wnext, sh.timer[1..]);
    assert QueueOk(k, sh, TimerQueue) && QueueOk(k, sh, KeyQueue);
    assert TaskOk(k, sh, 0) && TaskOk(k, sh, 1);
    ExitThenPrepareIff(k, ring, 0, k', w, k'', sh);
  }

  // ----- fairness

  /** Ring links from `a` to `b`. */
  function Dist(ring: seq<TaskId>, a: TaskId, b: TaskId): nat
    requires a in ring && b in ring
  {
    var i, j := IndexOf(ring, a), IndexOf(ring, b);
    if i <= j then j - i else j + |ring| - i
  }

  /** A switching yield moves the processor towards every RUNNING task that it does not pick. */
  lemma YieldCloser(k: Kernel, ring: seq<TaskId>, r: TaskId, t: TaskId)
    requires IsRing(k, ring) && k.running in ring && t in ring
    requires t in k.state && k.state[t] == RUNNING && t != k.running
    requires IsNextRunning(k, k.running, r)
    ensures r in ring && r != k.running
    ensures Dist(ring, r, t) < Dist(ring, k.running, t)
  {
    hide Distinct, IndexOf;
    var n: nat :| StopsAfter(k, k.running, n) && r == Walk(k.next, k.running, n);
    PicksAnother(k, ring, k.running, t, r);
    var i, j := IndexOf(ring, k.running), IndexOf(ring, t);
    ScanInRing(k, ring, i, n);
    var m := Dist(ring, k.running, t);
    assert Pos(i, m, |ring|) == j;
    assert n <= m;
    IndexUnique(ring, Pos(i, n, |ring|));
  }

  /** An exit moves the processor one link along the shortened ring. */
  lemma ExitCloser(ring: seq<TaskId>, i: nat, t: TaskId)
    requires Distinct(ring) && 2 <= |ring| && i < |ring|
    requires t in ring && t != ring[i]
    ensures var w, r := Without(ring, i), ring[Succ(i, |ring|)];
            r in w && t in w && Dist(w, r, t) < Dist(ring, ring[i], t)
  {
    var w, r := Without(ring, i), ring[Succ(i, |ring|)];
    WithoutMembers(ring, i);
    var j := IndexOf(ring, t);
    IndexUnique(ring, i);
    IndexUnique(w, if j < i then j else j - 1);
    IndexUnique(w, if i + 1 < |ring| then i else 0);
  }

  ghost function Switches(run: seq<Kernel>): nat {
    if |run| < 2 then 0
    else (if run[0].running != run[1].running then 1 else 0) + Switches(run[1..])
  }

  /** `run` is a stretch of steps in which no thread is created and `t` is never switched to. */
  ghost predicate WaitsThrough(idle: TaskId, run: seq<Kernel>, t: TaskId) {
    && 1 <= |run|
    && (forall i :: 0 <= i < |run| - 1 ==> Step(idle, run[i], run[i + 1]) && run[i + 1].next.Keys == run[i].next.Keys)
    && forall i :: 0 <= i < |run| ==> run[i].running != t
  }

  /** The task `t` is RUNNING and waits for its turn. */
  ghost predicate Pending(idle: TaskId, k: Kernel, sh: Shape, t: TaskId) {
    Inv(idle, k, sh) && t in sh.ring && k.state[t] == RUNNING
  }

  lemma PendingBounds(idle: TaskId, k: Kernel, sh: Shape, t: TaskId)
    requires Pending(idle, k, sh, t) && t != k.running
    ensures k.running in sh.ring && 0 < Dist(sh.ring, k.running, t) < |sh.ring|
  {
  }

  lemma StepCloser(idle: TaskId, k: Kernel, k': Kernel, sh: Shape, t: TaskId) returns (sh': Shape)
    requires Pending(idle, k, sh, t) && Step(idle, k, k') && k'.next.Keys == k.next.Keys
    requires t != k.running && t != k'.running
    ensures Pending(idle, k', sh', t)
    ensures Dist(sh'.ring, k'.running, t) + (if k'.running != k.running then 1 else 0) <= Dist(sh.ring, k.running, t)
  {
    sh' := StepKeeps(idle, k, k', sh);
    if Exited(k, k', sh, sh') {
      var i :| 0 <= i < |sh.ring| && sh.ring[i] == k.running && sh'.ring == Without(sh.ring, i)
               && |sh.ring| >= 2 && k'.running == sh.ring[Succ(i, |sh.ring|)];
      ExitCloser(sh.ring, i, t);
    } else if k'.running != k.running {
      YieldCloser(k, sh.ring, k'.running, t);
    }
  }

  lemma WaitsTail(idle: TaskId, run: seq<Kernel>, t: TaskId)
    requires WaitsThrough(idle, run, t) && 2 <= |run|
    ensures WaitsThrough(idle, run[1..], t)
    ensures Step(idle, run[0], run[1]) && run[1].next.Keys == run[0].next.Keys
    ensures run[0].running != t && run[1].running != t
  {
    assert Step(idle, run[0], run[0 + 1]);
    forall i | 0 <= i < |run[1..]| - 1
      ensures Step(idle, run[1..][i], run[1..][i + 1])
      ensures run[1..][i + 1].next.Keys == run[1..][i].next.Keys
    {
      assert Step(idle, run[i + 1], run[i + 1 + 1]);
    }
  }

  /** Bounded waiting: once a task is RUNNING, the processor is switched fewer times than its ring
      distance before the task is switched to, however interrupts and exits are interleaved. */
  lemma {:induction false} BoundedWait(idle: TaskId, run: seq<Kernel>, t: TaskId, sh: Shape)
    requires WaitsThrough(idle, run, t) && Pending(idle, run[0], sh, t)
    ensures Switches(run) < Dist(sh.ring, run[0].running, t) < |sh.ring|
    decreases |run|
  {
    hide Dist, Core, Step;
    assert run[0].running != t;
    PendingBounds(idle, run[0], sh, t);
    if |run| > 1 {
      WaitsTail(idle, run, t);
      var sh' := StepCloser(idle, run[0], run[1], sh, t);
      assert run[1..][0] == run[1];
      BoundedWait(idle, run[1..], t, sh');
    }
  }

  // ----- the sleep condition

  /** The 64-bit conversion gives the ticks that have passed, at 5 ms each, unless the counter has wrapped;
      after a wrap it is far too large, so a sleep across the wrap ends at its next check. */
  lemma TimerRangeExactIff(start: nat, end: nat)
    requires start < TWO32 && end < TWO32
    ensures start <= end <==> TimerRangeToMs(start, end) == 5 * ((end - start) % TWO32)
    ensures end < start ==> TimerRangeToMs(start, end) > 0xFFFF_FFFF_FFFF
  {
    if start <= end {
      assert (end - start) % TWO64 == end - start;
      assert (end - start) * 1000 % TWO64 == (end - start) * 1000;
    } else {
      var d := start - end;
      assert (end - start) % TWO64 == TWO64 - d;
      assert (TWO64 - d) * 1000 == 999 * TWO64 + (TWO64 - 1000 * d);
      assert (TWO64 - d) * 1000 % TWO64 == TWO64 - 1000 * d;
    }
  }
}
