/** Every atomic step keeps the invariant of the wait protocol. */
module WaitInvariant {
  import opened WaitProtocol

  // ----- pointer lists

  /** A head pointer spells out one list only. */
  lemma {:induction false} LinkedUnique(head: Ptr, wnext: map<TaskId, Ptr>, s: seq<TaskId>, s': seq<TaskId>)
    requires Linked(head, wnext, s) && Linked(head, wnext, s')
    ensures s == s'
    decreases |s|
  {
    if |s| != 0 && |s'| != 0 {
      LinkedUnique(wnext[s[0]], wnext, s[1..], s'[1..]);
      assert s == [s[0]] + s[1..] && s' == [s'[0]] + s'[1..];
    }
  }

  lemma {:induction false} LinkedFrame(head: Ptr, wnext: map<TaskId, Ptr>, s: seq<TaskId>, t: TaskId, p: Ptr)
    requires Linked(head, wnext, s) && t !in s
    ensures Linked(head, wnext[t := p], s)
    decreases |s|
  {
    if |s| != 0 {
      LinkedFrame(wnext[s[0]], wnext, s[1..], t, p);
    }
  }

  lemma LinkedPush(head: Ptr, wnext: map<TaskId, Ptr>, s: seq<TaskId>, t: TaskId)
    requires Linked(head, wnext, s) && t !in s
    ensures Linked(To(t), wnext[t := head], [t] + s)
  {
    LinkedFrame(head, wnext, s, t, head);
    assert ([t] + s)[1..] == s;
  }

  // ----- the ring

  function Pos(i: nat, n: nat, size: nat): nat
    requires i < size && n <= size
  {
    if i + n < size then i + n else i + n - size
  }

  /** Following `n` links around the ring lands `n` places further on. */
  lemma {:induction false} WalkRing(k: Kernel, ring: seq<TaskId>, i: nat, n: nat)
    requires IsRing(k, ring) && i < |ring| && n <= |ring|
    ensures Walk(k.next, ring[i], n) == ring[Pos(i, n, |ring|)]
  {
    hide Distinct;
    if n > 0 {
      WalkRing(k, ring, i, n - 1);
      assert LinkAt(k.next, ring, Pos(i, n - 1, |ring|));
    }
  }

  /** The scan stops inside one turn of the ring, on its start or on a RUNNING task, and passes only
      tasks that are not RUNNING. */
  lemma ScanInRing(k: Kernel, ring: seq<TaskId>, i: nat, n: nat)
    requires IsRing(k, ring) && i < |ring|
    requires StopsAfter(k, ring[i], n)
    ensures n <= |ring| && Walk(k.next, ring[i], n) == ring[Pos(i, n, |ring|)]
    ensures forall m :: 1 <= m < n ==> ring[Pos(i, m, |ring|)] in k.state && k.state[ring[Pos(i, m, |ring|)]] != RUNNING
  {
    WalkRing(k, ring, i, |ring|);
    if n > |ring| {
      assert Walk(k.next, ring[i], |ring|) == ring[i];
    }
    WalkRing(k, ring, i, n);
    forall m | 1 <= m < n
      ensures ring[Pos(i, m, |ring|)] in k.state && k.state[ring[Pos(i, m, |ring|)]] != RUNNING
    {
      WalkRing(k, ring, i, m);
      assert Walk(k.next, ring[i], m) == ring[Pos(i, m, |ring|)];
    }
  }

  function IndexOf(ring: seq<TaskId>, t: TaskId): (i: nat)
    requires t in ring
    ensures i < |ring| && ring[i] == t
  {
    if ring[0] == t then 0 else 1 + IndexOf(ring[1..], t)
  }

  lemma IndexUnique(ring: seq<TaskId>, i: nat)
    requires Distinct(ring) && i < |ring|
    ensures ring[i] in ring && IndexOf(ring, ring[i]) == i
  {
  }

  /** Whoever the scan of a task picks is on the ring, and is RUNNING unless it is the task. */
  lemma PickedRuns(k: Kernel, ring: seq<TaskId>, t: TaskId, r: TaskId)
    requires IsRing(k, ring) && t in ring && IsNextRunning(k, t, r)
    ensures r in ring && (r == t || (r in k.state && k.state[r] == RUNNING))
  {
    var n: nat :| StopsAfter(k, t, n) && r == Walk(k.next, t, n);
    ScanInRing(k, ring, IndexOf(ring, t), n);
  }

  /** While some other task of the ring is RUNNING, the scan never comes back to its start. */
  lemma PicksAnother(k: Kernel, ring: seq<TaskId>, t: TaskId, other: TaskId, r: TaskId)
    requires IsRing(k, ring) && t in ring && other in ring && other != t
    requires other in k.state && k.state[other] == RUNNING
    requires IsNextRunning(k, t, r)
    ensures r != t
  {
    hide Distinct, IndexOf;
    var n: nat :| StopsAfter(k, t, n) && r == Walk(k.next, t, n);
    var i, j := IndexOf(ring, t), IndexOf(ring, other);
    ScanInRing(k, ring, i, n);
    var m := if i <= j then j - i else j + |ring| - i;
    assert Pos(i, m, |ring|) == j;
    assert n <= m;
    IndexUnique(ring, Pos(i, n, |ring|));
  }

  /** A task that is not running keeps its part of the invariant when nothing about it changes; it
      may become the running task if it is RUNNING. */
  lemma TaskFrame(k: Kernel, k': Kernel, sh: Shape, sh': Shape, t: TaskId)
    requires t in k.state && t in k.pc && t in k'.state && t in k'.pc
    requires TaskOk(k, sh, t) && t != k.running
    requires k'.state[t] == k.state[t] && k'.pc[t] == k.pc[t]
    requires k'.jiffies == k.jiffies && k'.keyIndex == k.keyIndex
    requires t in sh'.timer <==> t in sh.timer
    requires t in sh'.key <==> t in sh.key
    requires t == k'.running ==> k.state[t] == RUNNING
    ensures TaskOk(k', sh', t)
  {
  }

  // ----- steps of the running task

  lemma BeginKeeps(k: Kernel, w: Wait, k': Kernel, sh: Shape)
    requires Core(k, sh) && Begin(k, w, k')
    ensures Core(k', sh)
  {
    assert IsRing(k', sh.ring);
    forall t | t in sh.ring ensures TaskOk(k', sh, t) {
      assert TaskOk(k, sh, t);
    }
  }

  lemma EnterKeeps(k: Kernel, w: Wait, k': Kernel, sh: Shape)
    requires Core(k, sh) && Enter(k, w, k')
    ensures Core(k', sh)
  {
    hide RingOf;
    assert TaskOk(k, sh, k.running);
    assert IsRing(k', sh.ring);
    LinkedFrame(k.head[TimerQueue], k.wnext, sh.timer, k.running, Null);
    LinkedFrame(k.head[KeyQueue], k.wnext, sh.key, k.running, Null);
    forall t | t in sh.ring ensures TaskOk(k', sh, t) {
      assert TaskOk(k, sh, t);
    }
  }

  /** A task in front of the preparation is RUNNING, so it is on no queue. */
  lemma NotQueued(k: Kernel, sh: Shape, w: Wait)
    requires Core(k, sh) && At(k, Preparing(w))
    ensures k.running !in sh.timer && k.running !in sh.key && Known(k, k.running)
  {
    assert TaskOk(k, sh, k.running);
  }

  /** Its queue after the preparation, and the other one. */
  lemma PreparedQueues(k: Kernel, sh: Shape, q: Queue, k': Kernel, sh': Shape)
    requires Core(k, sh) && k.running !in sh.timer && k.running !in sh.key
    requires q in k.head && sh' == sh.SetChain(q, [k.running] + sh.Chain(q))
    requires k'.head == k.head[q := To(k.running)] && k'.wnext == k.wnext[k.running := k.head[q]]
    ensures QueueOk(k', sh', TimerQueue) && QueueOk(k', sh', KeyQueue)
  {
    hide RingOf, TaskOk;
    var r := k.running;
    assert QueueOk(k, sh, q) && QueueOk(k, sh, Other(q));
    LinkedPush(k.head[q], k.wnext, sh.Chain(q), r);
    LinkedFrame(k.head[Other(q)], k.wnext, sh.Chain(Other(q)), r, k.head[q]);
    hide Linked;
    assert QueueOk(k', sh', q) && QueueOk(k', sh', Other(q));
  }

  lemma PreparedTask(k: Kernel, sh: Shape, w: Wait, k': Kernel)
    requires Prepare(k, w, k') && k.running !in sh.timer && k.running !in sh.key
    requires k.running in k.state && k.running in k.pc
    ensures TaskOk(k', sh.SetChain(QueueOf(w), [k.running] + sh.Chain(QueueOf(w))), k.running)
  {
  }

  lemma PrepareKeeps(k: Kernel, w: Wait, k': Kernel, sh: Shape) returns (sh': Shape)
    requires Core(k, sh) && Prepare(k, w, k')
    ensures sh' == sh.SetChain(QueueOf(w), [k.running] + sh.Chain(QueueOf(w)))
    ensures Core(k', sh')
  {
    hide RingOf, Distinct, Linked, TaskOk, QueueOk;
    var q, r := QueueOf(w), k.running;
    sh' := sh.SetChain(q, [r] + sh.Chain(q));
    NotQueued(k, sh, w);
    PreparedQueues(k, sh, q, k', sh');
    PreparedTask(k, sh, w, k');
    assert IsRing(k', sh'.ring);
    forall t | t in sh'.ring ensures TaskOk(k', sh', t) {
      if t != r {
        TaskFrame(k, k', sh, sh', t);
      }
    }
  }

  lemma CheckKeeps(k: Kernel, w: Wait, k': Kernel, sh: Shape)
    requires Core(k, sh) && Check(k, w, k')
    ensures Core(k', sh)
  {
    assert TaskOk(k, sh, k.running);
    assert IsRing(k', sh.ring);
    forall t | t in sh.ring ensures TaskOk(k', sh, t) {
      assert TaskOk(k, sh, t);
    }
  }

  /** The in-loop yield needs somebody who can run, be it the caller that has been woken already. */
  lemma YieldInLoopKeeps(k: Kernel, w: Wait, k': Kernel, sh: Shape)
    requires Core(k, sh) && YieldInLoop(k, w, k')
    requires SomeoneRuns(k, sh.ring)
    ensures Core(k', sh)
  {
    hide RingOf, Distinct;
    var g, r := Goto(k, Preparing(w)), k.running;
    assert IsRing(g, sh.ring);
    assert TaskOk(k, sh, r);
    PickedRuns(g, sh.ring, r, k'.running);
    var t :| t in sh.ring && t in k.state && k.state[t] == RUNNING;
    if t != r {
      PicksAnother(g, sh.ring, r, t, k'.running);
    }
    forall u | u in sh.ring ensures TaskOk(k', sh, u) {
      assert TaskOk(k, sh, u);
    }
  }

  lemma PlainYieldKeeps(k: Kernel, k': Kernel, sh: Shape)
    requires Core(k, sh) && At(k, Outside) && Yield(k, k')
    ensures Core(k', sh)
  {
    assert TaskOk(k, sh, k.running);
    PickedRuns(k, sh.ring, k.running, k'.running);
    assert IsRing(k', sh.ring);
    forall t | t in sh.ring ensures TaskOk(k', sh, t) {
      assert TaskOk(k, sh, t);
    }
  }

  /** The queues after the entry of the running task has gone from the head of its queue. */
  lemma FinishedQueues(k: Kernel, sh: Shape, w: Wait, k': Kernel, sh': Shape)
    requires Core(k, sh) && Finish(k, w, k') && sh' == sh.SetChain(QueueOf(w), Popped(sh.Chain(QueueOf(w))))
    ensures QueueOk(k', sh', TimerQueue) && QueueOk(k', sh', KeyQueue)
    ensures forall t :: t in sh'.Chain(QueueOf(w)) <==> t in sh.Chain(QueueOf(w)) && t != k.running
    ensures !Queued(sh', k.running)
  {
    hide RingOf, Distinct;
    var q := QueueOf(w);
    assert TaskOk(k, sh, k.running);
    assert QueueOk(k, sh, q) && QueueOk(k, sh, Other(q));
    PopMembers(sh.Chain(q), k.running);
    assert QueueOk(k', sh', q) && QueueOk(k', sh', Other(q));
  }

  function Popped(c: seq<TaskId>): seq<TaskId> {
    if |c| == 0 then [] else c[1..]
  }

  lemma FinishKeeps(k: Kernel, w: Wait, k': Kernel, sh: Shape) returns (sh': Shape)
    requires Core(k, sh) && Finish(k, w, k')
    ensures sh'.ring == sh.ring && !Queued(sh', k.running)
    ensures Core(k', sh')
  {
    hide RingOf, Distinct, Linked, TaskOk, QueueOk, Popped;
    sh' := sh.SetChain(QueueOf(w), Popped(sh.Chain(QueueOf(w))));
    FinishedQueues(k, sh, w, k', sh');
    assert IsRing(k', sh'.ring);
    forall t | t in sh'.ring ensures TaskOk(k', sh', t) {
      if t != k.running {
        TaskFrame(k, k', sh, sh', t);
      } else {
        FinishedTask(k, sh', w, k');
      }
    }
  }

  lemma FinishedTask(k: Kernel, sh: Shape, w: Wait, k': Kernel)
    requires Finish(k, w, k') && !Queued(sh, k.running) && k.running in k.state && k.running in k.pc
    ensures TaskOk(k', sh, k.running)
  {
  }

  /** Dropping the entry of `r` from the head of a queue, if the queue is not empty. */
  lemma PopMembers(c: seq<TaskId>, r: TaskId)
    requires Distinct(c) && (|c| == 0 || c[0] == r)
    ensures Distinct(Popped(c)) && forall t :: t in Popped(c) <==> t in c && t != r
  {
    if |c| != 0 {
      assert c == [c[0]] + c[1..];
    }
  }

  // ----- the ring changes

  lemma CreateKeeps(k: Kernel, t: TaskId, k': Kernel, sh: Shape) returns (sh': Shape)
    requires Core(k, sh) && Create(k, t, k')
    ensures sh' == sh.(ring := sh.ring + [t])
    ensures Core(k', sh')
  {
    sh' := sh.(ring := sh.ring + [t]);
    assert t !in sh.ring;
    InsertedRing(k, t, sh.ring);
    LinkedFrame(k.head[TimerQueue], k.wnext, sh.timer, t, Null);
    LinkedFrame(k.head[KeyQueue], k.wnext, sh.key, t, Null);
    assert QueueOk(k, sh, TimerQueue) && QueueOk(k, sh, KeyQueue);
    assert QueueOk(k', sh', TimerQueue) && QueueOk(k', sh', KeyQueue);
    CreatedTasks(k, t, k', sh);
  }

  lemma CreatedTasks(k: Kernel, t: TaskId, k': Kernel, sh: Shape)
    requires Core(k, sh) && Create(k, t, k') && t !in sh.ring
    ensures forall u :: u in sh.ring + [t] ==> Known(k', u) && TaskOk(k', sh.(ring := sh.ring + [t]), u)
  {
    var sh' := sh.(ring := sh.ring + [t]);
    assert QueueOk(k, sh, TimerQueue) && QueueOk(k, sh, KeyQueue);
    assert TaskOk(k, sh, k.running);
    forall u | u in sh'.ring ensures Known(k', u) && TaskOk(k', sh', u) {
      if u != t {
        assert u in sh.ring;
        if u != k.running {
          TaskFrame(k, k', sh, sh', u);
        }
      }
    }
  }

  /** `tasks_insert` appends at the tail of the ring. */
  lemma InsertedRing(k: Kernel, t: TaskId, ring: seq<TaskId>)
    requires IsRing(k, ring) && t !in ring
    ensures IsRing(Inserted(k, t), ring + [t])
  {
    var k', ring' := Inserted(k, t), ring + [t];
    forall i | 0 <= i < |ring'|
      ensures LinkAt(k'.next, ring', i)
    {
      if i < |ring| {
        assert LinkAt(k.next, ring, i);
        assert ring[i] in ring;
      }
    }
  }

  function Without(ring: seq<TaskId>, i: nat): (r: seq<TaskId>)
    requires i < |ring|
    ensures |r| == |ring| - 1
    ensures forall j :: 0 <= j < |r| ==> r[j] == ring[Skip(i, j)]
  {
    ring[..i] + ring[i + 1..]
  }

  /** The position, before position `i` was dropped, of what stands at `j` afterwards. */
  function Skip(i: nat, j: nat): nat {
    if j < i then j else j + 1
  }

  lemma DistinctWithout(ring: seq<TaskId>, i: nat)
    requires Distinct(ring) && i < |ring|
    ensures Distinct(Without(ring, i))
  {
  }

  /** `tasks_remove` leaves the old order minus exactly the removed task. */
  lemma RemovedRing(k: Kernel, ring: seq<TaskId>, i: nat)
    requires IsRing(k, ring) && 2 <= |ring| && i < |ring|
    ensures IsRing(Removed(k, ring, i), Without(ring, i))
  {
    hide Distinct;
    var k', w := Removed(k, ring, i), Without(ring, i);
    DistinctWithout(ring, i);
    assert Distinct(w);
    RemovedEnds(k, ring, i);
    forall j | 0 <= j < |w|
      ensures LinkAt(k'.next, w, j)
    {
      RemovedLink(k, ring, i, j);
    }
  }

  lemma RemovedEnds(k: Kernel, ring: seq<TaskId>, i: nat)
    requires IsRing(k, ring) && 2 <= |ring| && i < |ring|
    ensures Removed(k, ring, i).tasks == Without(ring, i)[0]
    ensures Removed(k, ring, i).tail == Without(ring, i)[|ring| - 2]
  {
    assert LinkAt(k.next, ring, i);
    assert Without(ring, i)[0] == ring[Skip(i, 0)];
    assert Without(ring, i)[|ring| - 2] == ring[Skip(i, |ring| - 2)];
  }

  lemma RemovedLink(k: Kernel, ring: seq<TaskId>, i: nat, j: nat)
    requires IsRing(k, ring) && 2 <= |ring| && i < |ring| && j < |ring| - 1
    ensures ring[Skip(i, j)] in Removed(k, ring, i).next
    ensures Removed(k, ring, i).next[ring[Skip(i, j)]] == ring[Skip(i, Succ(j, |ring| - 1))]
  {
    hide Without;
    var o := Skip(i, j);
    assert LinkAt(k.next, ring, o);
    assert LinkAt(k.next, ring, i);
    var prev := if i == 0 then |ring| - 1 else i - 1;
    assert Removed(k, ring, i).next == k.next[ring[prev] := ring[Succ(i, |ring|)]];
    if o != prev {
      assert Succ(o, |ring|) == Skip(i, Succ(j, |ring| - 1));
    } else {
      assert Succ(i, |ring|) == Skip(i, Succ(j, |ring| - 1));
    }
  }

  lemma WithoutMembers(ring: seq<TaskId>, i: nat)
    requires Distinct(ring) && i < |ring|
    ensures forall t :: t in Without(ring, i) <==> t in ring && t != ring[i]
  {
    var w := Without(ring, i);
    forall t | t in ring && t != ring[i]
      ensures t in w
    {
      var j := IndexOf(ring, t);
      assert w[if j < i then j else j - 1] == t;
    }
    forall t | t in w
      ensures t in ring && t != ring[i]
    {
      assert t == ring[Skip(i, IndexOf(w, t))];
    }
  }

  lemma ExitKeeps(k: Kernel, k': Kernel, sh: Shape, ring: seq<TaskId>, i: nat) returns (sh': Shape)
    requires Core(k, sh) && SuccessorRuns(k) && ExitAt(k, ring, i, k')
    ensures ring == sh.ring && sh' == sh.(ring := Without(ring, i))
    ensures Core(k', sh')
  {
    RingUnique(k, ring, sh.ring);
    sh' := sh.(ring := Without(ring, i));
    assert LinkAt(k.next, ring, i);
    RemovedRing(k, ring, i);
    assert IsRing(k', sh'.ring);
    WithoutMembers(ring, i);
    assert TaskOk(k, sh, k.running);
    assert !Queued(sh, k.running);
    assert k'.running in sh'.ring;
    assert QueueOk(k, sh, TimerQueue) && QueueOk(k, sh, KeyQueue);
    assert QueueOk(k', sh', TimerQueue) && QueueOk(k', sh', KeyQueue);
    forall t | t in sh'.ring ensures TaskOk(k', sh', t) {
      TaskFrame(k, k', sh, sh', t);
    }
  }

  lemma {:induction false} RingPrefix(k: Kernel, ring: seq<TaskId>, ring': seq<TaskId>, i: nat)
    requires IsRing(k, ring) && IsRing(k, ring') && i < |ring| && i < |ring'|
    ensures ring[i] == ring'[i]
  {
    if i > 0 {
      RingPrefix(k, ring, ring', i - 1);
      assert LinkAt(k.next, ring, i - 1) && LinkAt(k.next, ring', i - 1);
    }
  }

  lemma RingNotLonger(k: Kernel, ring: seq<TaskId>, ring': seq<TaskId>)
    requires IsRing(k, ring) && IsRing(k, ring')
    ensures |ring'| <= |ring|
  {
    var n := |ring|;
    if n < |ring'| {
      assert LinkAt(k.next, ring, n - 1) && LinkAt(k.next, ring', n - 1);
      RingPrefix(k, ring, ring', 0);
      RingPrefix(k, ring, ring', n - 1);
      assert false;
    }
  }

  /** The links of a state spell out one ring only. */
  lemma RingUnique(k: Kernel, ring: seq<TaskId>, ring': seq<TaskId>)
    requires IsRing(k, ring) && IsRing(k, ring')
    ensures ring == ring'
  {
    RingNotLonger(k, ring, ring');
    RingNotLonger(k, ring', ring);
    forall i | 0 <= i < |ring| ensures ring[i] == ring'[i] {
      RingPrefix(k, ring, ring', i);
    }
  }

  // ----- interrupt handlers

  lemma EmptyQueueOk(k: Kernel, sh: Shape, q: Queue)
    requires q in k.head && k.head[q] == Null && sh.Chain(q) == []
    ensures QueueOk(k, sh, q)
  {
  }

  lemma MakeRunningNone(state: map<TaskId, TaskState>)
    ensures MakeRunning(state, []) == state
  {
  }

  lemma MakeRunningOne(state: map<TaskId, TaskState>, s: seq<TaskId>, t: TaskId)
    requires t in state
    ensures MakeRunning(state, s)[t := RUNNING] == MakeRunning(state, s + [t])
  {
  }

  lemma HeadIndex(k: Kernel, ring: seq<TaskId>, t: TaskId)
    requires IsRing(k, ring) && t in ring
    ensures t == k.tasks <==> IndexOf(ring, t) == 0
    ensures t in k.next
  {
    assert LinkAt(k.next, ring, IndexOf(ring, t));
  }

  /** The part of one task in a wake-up of `q`. */
  lemma WokenTask(k: Kernel, k': Kernel, q: Queue, sh: Shape, t: TaskId)
    requires t in k.state && t in k.pc && t in k'.state && TaskOk(k, sh, t)
    requires k'.state[t] == if t in sh.Chain(q) then RUNNING else k.state[t]
    requires k'.pc == k.pc && k'.running == k.running
    requires q == TimerQueue ==> k'.keyIndex == k.keyIndex
    requires q == KeyQueue ==> k'.jiffies == k.jiffies
    ensures TaskOk(k', sh.SetChain(q, []), t)
  {
  }

  lemma WakeUpKeeps(k: Kernel, tick: Kernel, q: Queue, k': Kernel, sh: Shape) returns (sh': Shape)
    requires Core(k, sh)
    requires tick == k.(jiffies := tick.jiffies, keyIndex := tick.keyIndex)
    requires q == TimerQueue ==> tick.keyIndex == k.keyIndex
    requires q == KeyQueue ==> tick.jiffies == k.jiffies
    requires WakeUp(tick, q, k')
    ensures sh' == sh.SetChain(q, [])
    ensures Core(k', sh')
  {
    hide RingOf, Distinct, Linked, TaskOk;
    var s :| WakeUpList(tick, q, s, k');
    assert QueueOk(k, sh, q) && QueueOk(k, sh, Other(q));
    LinkedUnique(k.head[q], k.wnext, s, sh.Chain(q));
    sh' := sh.SetChain(q, []);
    assert IsRing(k', sh'.ring);
    EmptyQueueOk(k', sh', q);
    assert QueueOk(k', sh', Other(q));
    forall t | t in sh'.ring ensures TaskOk(k', sh', t) {
      WokenTask(k, k', q, sh, t);
    }
  }

  // ----- every step

  /** How the ring, the running task and the RUNNING tasks may change in one step. */
  ghost predicate Effect(k: Kernel, k': Kernel, sh: Shape, sh': Shape) {
    && (forall t :: t in k.state && k.state[t] == RUNNING && t != k.running && t in k.next ==>
          t in k'.state && k'.state[t] == RUNNING)
    && (|| (sh'.ring == sh.ring && (k'.running == k.running || IsNextRunning(k, k.running, k'.running)))
        || Created(k, k', sh, sh')
        || Exited(k, k', sh, sh'))
  }

  ghost predicate Created(k: Kernel, k': Kernel, sh: Shape, sh': Shape) {
    exists t :: t !in k.next && t in k'.next && sh'.ring == sh.ring + [t] && k'.running == k.running
  }

  ghost predicate Exited(k: Kernel, k': Kernel, sh: Shape, sh': Shape) {
    exists i :: 0 <= i < |sh.ring| && sh.ring[i] == k.running && sh'.ring == Without(sh.ring, i)
                && |sh.ring| >= 2 && k'.running == sh.ring[Succ(i, |sh.ring|)]
  }

  /** The scan looks only at ring links and task states. */
  lemma SameScan(k: Kernel, g: Kernel, t: TaskId, r: TaskId)
    requires IsNextRunning(g, t, r) && g.next == k.next && g.state == k.state
    ensures IsNextRunning(k, t, r)
  {
    var n: nat :| StopsAfter(g, t, n) && r == Walk(g.next, t, n);
    assert StopsAfter(k, t, n);
  }

  /** The idle task stays what it is when the ring keeps it and nobody else moves its place. */
  lemma IdleStays(idle: TaskId, k: Kernel, k': Kernel, sh: Shape, sh': Shape)
    requires Inv(idle, k, sh) && Core(k', sh')
    requires idle in sh'.ring && (idle in k'.pc ==> k'.pc[idle] == Outside)
    ensures Inv(idle, k', sh')
  {
  }

  lemma IdleRuns(idle: TaskId, k: Kernel, sh: Shape)
    requires Inv(idle, k, sh)
    ensures SomeoneRuns(k, sh.ring)
  {
    assert TaskOk(k, sh, idle);
  }

  lemma LoopStepKeeps(idle: TaskId, k: Kernel, w: Wait, k': Kernel, sh: Shape) returns (sh': Shape)
    requires Inv(idle, k, sh) && LoopStep(k, w, k')
    ensures Inv(idle, k', sh') && sh'.ring == sh.ring
    ensures k'.running == k.running || IsNextRunning(k, k.running, k'.running)
    ensures forall t :: t in k.state && t != k.running ==> t in k'.state && k'.state[t] == k.state[t]
  {
    hide Core, RingOf;
    sh' := sh;
    if Enter(k, w, k') {
      EnterKeeps(k, w, k', sh);
    } else if Prepare(k, w, k') {
      sh' := PrepareKeeps(k, w, k', sh);
    } else if Check(k, w, k') {
      CheckKeeps(k, w, k', sh);
    } else if YieldInLoop(k, w, k') {
      IdleRuns(idle, k, sh);
      YieldInLoopKeeps(k, w, k', sh);
      SameScan(k, Goto(k, Preparing(w)), k.running, k'.running);
    } else {
      sh' := FinishKeeps(k, w, k', sh);
    }
    IdleStays(idle, k, k', sh, sh');
  }

  lemma InterruptKeeps(idle: TaskId, k: Kernel, k': Kernel, sh: Shape) returns (sh': Shape)
    requires Inv(idle, k, sh) && Interrupt(k, k')
    ensures Inv(idle, k', sh') && sh'.ring == sh.ring && k'.running == k.running
    ensures forall t :: t in k.state && k.state[t] == RUNNING ==> t in k'.state && k'.state[t] == RUNNING
  {
    hide Core;
    if TimerIrq(k, k') {
      sh' := WakeUpKeeps(k, k.(jiffies := (k.jiffies + 1) % TWO32), TimerQueue, k', sh);
    } else {
      sh' := WakeUpKeeps(k, k.(keyIndex := (k.keyIndex + 1) % KEY_RING_SIZE), KeyQueue, k', sh);
    }
    IdleStays(idle, k, k', sh, sh');
  }

  lemma CreateStepKeeps(idle: TaskId, k: Kernel, t: TaskId, k': Kernel, sh: Shape) returns (sh': Shape)
    requires Inv(idle, k, sh) && Create(k, t, k')
    ensures Inv(idle, k', sh') && Created(k, k', sh, sh')
    ensures forall u :: u in k.state && u in k.next ==> u in k'.state && k'.state[u] == k.state[u]
  {
    hide Core;
    sh' := CreateKeeps(k, t, k', sh);
    assert t in k'.next;
    IdleStays(idle, k, k', sh, sh');
  }

  lemma ExitStepKeeps(idle: TaskId, k: Kernel, k': Kernel, sh: Shape) returns (sh': Shape)
    requires Inv(idle, k, sh) && k.running != idle && SuccessorRuns(k) && Exit(k, k')
    ensures Inv(idle, k', sh') && Exited(k, k', sh, sh') && k'.state == k.state
  {
    var ring, i :| ExitAt(k, ring, i, k');
    sh' := ExitKeeps(k, k', sh, ring, i);
    WithoutMembers(ring, i);
    assert LinkAt(k.next, ring, i);
  }

  /** Every step of the system keeps the invariant. */
  lemma StepKeeps(idle: TaskId, k: Kernel, k': Kernel, sh: Shape) returns (sh': Shape)
    requires Inv(idle, k, sh) && Step(idle, k, k')
    ensures Inv(idle, k', sh') && Effect(k, k', sh, sh')
  {
    hide Core;
    sh' := sh;
    if Interrupt(k, k') {
      sh' := InterruptKeeps(idle, k, k', sh);
    } else if w :| LoopStep(k, w, k') {
      sh' := LoopStepKeeps(idle, k, w, k', sh);
    } else if At(k, Outside) && Yield(k, k') {
      PlainYieldKeeps(k, k', sh);
      IdleStays(idle, k, k', sh, sh');
    } else if w :| k.running != idle && Begin(k, w, k') {
      BeginKeeps(k, w, k', sh);
      IdleStays(idle, k, k', sh, sh');
    } else if t :| k.running != idle && Create(k, t, k') {
      sh' := CreateStepKeeps(idle, k, t, k', sh);
    } else {
      sh' := ExitStepKeeps(idle, k, k', sh);
    }
  }

  /** The state after `kernel_main` has created the idle thread satisfies the invariant. */
  lemma BootedInv(boot: TaskId, idle: TaskId)
    requires boot != idle
    ensures Inv(idle, Booted(boot, idle), Shape([boot, idle], [], []))
  {
    assert IsRing(Initialized(boot), [boot]);
    InsertedRing(Initialized(boot), idle, [boot]);
    assert [boot] + [idle] == [boot, idle];
  }
}
