/** How long waits last, in the interrupts of a run: a sleep in timer interrupts, the wait for a key in key
    interrupts. */
module WaitTimes {
  import opened WaitProtocol
  import opened WaitInvariant
  import WaitTheorems

  // ----- the two tests

  /** The test of a sleep, as long as the tick counter has not wrapped since it began: a tick is 5 ms. */
  lemma SleepTestIff(start: nat, now: nat, ms: nat, keyIndex: nat)
    requires start <= now < TWO32
    ensures Condition(Sleep(start, ms), now, keyIndex) <==> 5 * (now - start) >= ms
  {
    var d := now - start;
    assert d % TWO64 == d && d * 1000 % TWO64 == d * 1000;
    FiveEach(d);
  }

  lemma FiveEach(d: nat)
    ensures d * 1000 / HZ == 5 * d
  {
    assert d * 1000 == HZ * (5 * d);
  }

  /** The test of the wait for a key, by the keys that have arrived before and after it began. */
  lemma KeyTestIff(before: nat, since: nat, jiffies: nat)
    ensures Condition(Key(before % 128), jiffies, (before + since) % 128) <==> since % 128 != 0
  {
    var a, b, c := before / 128, since / 128, (before + since) / 128;
    assert before == 128 * a + before % 128 && since == 128 * b + since % 128;
    assert before + since == 128 * c + (before + since) % 128;
    if since % 128 == 0 {
      RemainderIs(before + since, a + b, before % 128);
    }
    if (before + since) % 128 == before % 128 {
      RemainderIs(since, c - a, 0);
    }
  }

  lemma RemainderIs(n: nat, q: int, r: nat)
    requires n == 128 * q + r && r < 128
    ensures n % 128 == r
  {
  }

  // ----- counting interrupts

  /** The timer interrupts among the steps of a run from state `i` to state `j`. */
  ghost function Ticks(run: seq<Kernel>, i: nat, j: nat): nat
    requires i <= j < |run|
  {
    if i == j then 0 else Ticks(run, i, j - 1) + if TimerIrq(run[j - 1], run[j]) then 1 else 0
  }

  /** The key interrupts among them. */
  ghost function Keys(run: seq<Kernel>, i: nat, j: nat): nat
    requires i <= j < |run|
  {
    if i == j then 0 else Keys(run, i, j - 1) + if KeyIrq(run[j - 1], run[j]) then 1 else 0
  }

  /** Each interrupt advances its own counter, and no other step does. */
  lemma StepCounts(idle: TaskId, k: Kernel, k': Kernel)
    requires Step(idle, k, k') && k.jiffies < TWO32 && k.keyIndex < KEY_RING_SIZE
    ensures k'.jiffies == if TimerIrq(k, k') then (k.jiffies + 1) % TWO32 else k.jiffies
    ensures k'.keyIndex == if KeyIrq(k, k') then (k.keyIndex + 1) % KEY_RING_SIZE else k.keyIndex
  {
    hide WakeUpList, Linked, MakeRunning, IsNextRunning, IsRing;
    if TimerIrq(k, k') {
      WakeUpCounts(k.(jiffies := (k.jiffies + 1) % TWO32), TimerQueue, k');
    }
    if KeyIrq(k, k') {
      WakeUpCounts(k.(keyIndex := (k.keyIndex + 1) % KEY_RING_SIZE), KeyQueue, k');
    }
    Advances(k.jiffies, TWO32);
    Advances(k.keyIndex, KEY_RING_SIZE);
  }

  lemma WakeUpCounts(k: Kernel, q: Queue, k': Kernel)
    requires WakeUp(k, q, k')
    ensures k'.jiffies == k.jiffies && k'.keyIndex == k.keyIndex
  {
  }

  lemma Advances(n: nat, size: nat)
    requires n < size && 2 <= size
    ensures (n + 1) % size != n
  {
  }

  lemma NextTick(n: nat)
    ensures (n % TWO32 + 1) % TWO32 == (n + 1) % TWO32
  {
  }

  lemma NextKey(n: nat)
    ensures (n % KEY_RING_SIZE + 1) % KEY_RING_SIZE == (n + 1) % KEY_RING_SIZE
  {
  }

  /** The counters show the interrupts since boot. */
  lemma {:induction false} Counters(boot: TaskId, idle: TaskId, run: seq<Kernel>, j: nat)
    requires IsRun(boot, idle, run) && j < |run|
    ensures run[j].jiffies == Ticks(run, 0, j) % TWO32 && run[j].keyIndex == Keys(run, 0, j) % KEY_RING_SIZE
  {
    hide Step, TimerIrq, KeyIrq;
    if j > 0 {
      Counters(boot, idle, run, j - 1);
      assert Step(idle, run[j - 1], run[j - 1 + 1]);
      StepCounts(idle, run[j - 1], run[j]);
      NextTick(Ticks(run, 0, j - 1));
      NextKey(Keys(run, 0, j - 1));
    }
  }

  lemma {:induction false} CountsAdd(run: seq<Kernel>, i: nat, j: nat)
    requires i <= j < |run|
    ensures Ticks(run, 0, j) == Ticks(run, 0, i) + Ticks(run, i, j)
    ensures Keys(run, 0, j) == Keys(run, 0, i) + Keys(run, i, j)
    decreases j
  {
    hide TimerIrq, KeyIrq;
    if i < j {
      CountsAdd(run, i, j - 1);
    }
  }

  lemma {:induction false} CountsGrow(run: seq<Kernel>, i: nat, m: nat, j: nat)
    requires i <= m <= j < |run|
    ensures Ticks(run, i, m) <= Ticks(run, i, j)
    decreases j
  {
    hide TimerIrq, KeyIrq;
    if m < j {
      CountsGrow(run, i, m, j - 1);
    }
  }

  // ----- one call

  /** In step `i` the task `t` makes the call that waits for `w`. */
  ghost predicate Calls(run: seq<Kernel>, i: nat, t: TaskId, w: Wait)
    requires i + 1 < |run|
  {
    run[i].running == t && Begin(run[i], w, run[i + 1])
  }

  /** Between the states `i` and `j` it does not return from it. */
  ghost predicate InCall(run: seq<Kernel>, i: nat, j: nat, t: TaskId)
    requires j < |run|
  {
    forall m :: i < m < j ==> t in run[m].pc && run[m].pc[t] != Outside
  }

  /** The places of a task that a step can move it between while it waits. */
  ghost predicate Moves(k: Kernel, p: Pc, p': Pc, w: Wait) {
    && (p' == Outside || p'.w == w)
    && (p' == Outside && !p.Finishing? ==> Holds(k, w))
    && (p'.Finishing? && !p.Finishing? ==> Holds(k, w))
  }

  lemma WaitMoves(idle: TaskId, k: Kernel, k': Kernel, sh: Shape, t: TaskId, w: Wait) returns (sh': Shape)
    requires Inv(idle, k, sh) && Step(idle, k, k')
    requires t in sh.ring && k.pc[t] != Outside && k.pc[t].w == w
    ensures Inv(idle, k', sh') && t in sh'.ring && Moves(k, k.pc[t], k'.pc[t], w)
  {
    hide Core, Holds;
    InRing(idle, k, sh, t);
    if t == k.running {
      OwnStep(idle, k, k', t, w);
      if Interrupt(k, k') {
        sh' := InterruptKeeps(idle, k, k', sh);
      } else {
        var v :| LoopStep(k, v, k');
        sh' := LoopStepKeeps(idle, k, v, k', sh);
      }
    } else {
      OthersStep(idle, k, k', t);
      sh' := StepKeeps(idle, k, k', sh);
      if i :| 0 <= i < |sh.ring| && sh.ring[i] == k.running && sh'.ring == Without(sh.ring, i) {
        RingDistinct(idle, k, sh);
        WithoutMembers(sh.ring, i);
      }
    }
    InRing(idle, k', sh', t);
  }

  lemma InRing(idle: TaskId, k: Kernel, sh: Shape, t: TaskId)
    requires Inv(idle, k, sh)
    ensures k.running in sh.ring
    ensures t in sh.ring ==> t in k.next && t in k.pc && t in k.state
  {
  }

  lemma RingDistinct(idle: TaskId, k: Kernel, sh: Shape)
    requires Inv(idle, k, sh)
    ensures Distinct(sh.ring)
  {
  }

  /** A step of the wait loop moves the running task and nobody else. */
  ghost predicate Goes(k: Kernel, w: Wait, k': Kernel) {
    && k.running in k.pc && k.pc[k.running] != Outside && k.pc[k.running].w == w
    && k.running in k'.pc && k'.pc == k.pc[k.running := k'.pc[k.running]]
    && Moves(k, k.pc[k.running], k'.pc[k.running], w)
  }

  lemma LoopGoes(k: Kernel, w: Wait, k': Kernel)
    requires LoopStep(k, w, k')
    ensures Goes(k, w, k')
  {
    hide Enter, Prepare, Check, YieldInLoop, Finish, Goes;
    if Enter(k, w, k') {
      EnterGoes(k, w, k');
    } else if Prepare(k, w, k') {
      PrepareGoes(k, w, k');
    } else if Check(k, w, k') {
      CheckGoes(k, w, k');
    } else if YieldInLoop(k, w, k') {
      YieldGoes(k, w, k');
    } else {
      FinishGoes(k, w, k');
    }
  }

  lemma EnterGoes(k: Kernel, w: Wait, k': Kernel)
    requires Enter(k, w, k')
    ensures Goes(k, w, k')
  {
    hide Holds;
  }

  lemma PrepareGoes(k: Kernel, w: Wait, k': Kernel)
    requires Prepare(k, w, k')
    ensures Goes(k, w, k')
  {
    hide Holds;
  }

  lemma CheckGoes(k: Kernel, w: Wait, k': Kernel)
    requires Check(k, w, k')
    ensures Goes(k, w, k')
  {
    hide Holds;
  }

  lemma YieldGoes(k: Kernel, w: Wait, k': Kernel)
    requires YieldInLoop(k, w, k')
    ensures Goes(k, w, k')
  {
    hide Holds, IsNextRunning;
  }

  lemma FinishGoes(k: Kernel, w: Wait, k': Kernel)
    requires Finish(k, w, k')
    ensures Goes(k, w, k')
  {
    hide Holds;
  }

  /** The running task inside a wait is interrupted or goes on with its loop. */
  lemma OwnStep(idle: TaskId, k: Kernel, k': Kernel, t: TaskId, w: Wait)
    requires Step(idle, k, k') && t == k.running && t in k.pc && k.pc[t] != Outside && k.pc[t].w == w
    ensures Interrupt(k, k') || exists v :: LoopStep(k, v, k')
    ensures t in k'.pc && Moves(k, k.pc[t], k'.pc[t], w)
  {
    hide Holds, IsNextRunning, WakeUp, LoopStep, RingOf;
    if Interrupt(k, k') {
      InterruptStays(k, k');
    } else {
      var v :| LoopStep(k, v, k');
      LoopGoes(k, v, k');
    }
  }

  /** The others stay where they are. */
  lemma OthersStep(idle: TaskId, k: Kernel, k': Kernel, t: TaskId)
    requires Step(idle, k, k') && t != k.running && t in k.pc && t in k.next
    ensures t in k'.pc && k'.pc[t] == k.pc[t]
  {
    hide WakeUp, IsNextRunning, LoopStep, ExitAt;
    if Interrupt(k, k') {
      InterruptStays(k, k');
    } else if w :| LoopStep(k, w, k') {
      LoopGoes(k, w, k');
    } else if ring, i :| ExitAt(k, ring, i, k') {
      OthersAtExit(k, ring, i, k');
    }
  }

  lemma InterruptStays(k: Kernel, k': Kernel)
    requires Interrupt(k, k')
    ensures k'.pc == k.pc
  {
    hide WakeUp;
    if TimerIrq(k, k') {
      WakeUpMoves(k.(jiffies := (k.jiffies + 1) % TWO32), TimerQueue, k');
    } else {
      WakeUpMoves(k.(keyIndex := (k.keyIndex + 1) % KEY_RING_SIZE), KeyQueue, k');
    }
  }

  lemma OthersAtExit(k: Kernel, ring: seq<TaskId>, i: nat, k': Kernel)
    requires ExitAt(k, ring, i, k')
    ensures k'.pc == k.pc
  {
    hide RingOf;
  }

  lemma WakeUpMoves(k: Kernel, q: Queue, k': Kernel)
    requires WakeUp(k, q, k')
    ensures k'.pc == k.pc
  {
  }

  /** Where the caller is, as long as it has not returned. */
  lemma {:induction false} Follow(boot: TaskId, idle: TaskId, run: seq<Kernel>, i: nat, j: nat, t: TaskId, w: Wait)
    returns (sh: Shape)
    requires IsRun(boot, idle, run) && i < j < |run| && Calls(run, i, t, w) && InCall(run, i, j, t)
    ensures Inv(idle, run[j], sh) && t in sh.ring && t in run[j].pc && t in run[j].state
    ensures run[j].pc[t] == Outside || run[j].pc[t].w == w
    ensures j > i + 1 ==>
              t in run[j - 1].pc && run[j - 1].pc[t] != Outside && Moves(run[j - 1], run[j - 1].pc[t], run[j].pc[t], w)
    ensures j == i + 1 ==> run[j].pc[t] == Entering(w)
    decreases j
  {
    hide Step, Core, Holds;
    if j == i + 1 {
      sh := RunShape(boot, idle, run, i);
      var sh' := RunShape(boot, idle, run, j);
      InRing(idle, run[i], sh, t);
      Began(idle, run[i], run[j], sh, sh', w);
    } else {
      var before := Follow(boot, idle, run, i, j - 1, t, w);
      assert Step(idle, run[j - 1], run[j - 1 + 1]);
      sh := WaitMoves(idle, run[j - 1], run[j], before, t, w);
    }
    InRing(idle, run[j], sh, t);
  }

  lemma RunShape(boot: TaskId, idle: TaskId, run: seq<Kernel>, i: nat) returns (sh: Shape)
    requires IsRun(boot, idle, run) && i < |run|
    ensures Inv(idle, run[i], sh)
  {
    hide Step, Inv;
    var before := run[..i + 1];
    forall m | 0 <= m < |before| - 1 ensures Step(idle, before[m], before[m + 1]) {
      assert Step(idle, run[m], run[m + 1]);
    }
    sh := WaitTheorems.RunInv(boot, idle, before);
  }

  lemma Began(idle: TaskId, k: Kernel, k': Kernel, sh: Shape, sh': Shape, w: Wait)
    requires Inv(idle, k, sh) && Begin(k, w, k') && Inv(idle, k', sh')
    ensures Inv(idle, k', sh) && k.running in sh.ring && k'.pc[k.running] == Entering(w)
  {
    hide RingOf, Linked, Distinct;
    BeginKeeps(k, w, k', sh);
  }

  /** Who is through the wait has had a look at a true condition. */
  lemma {:induction false} Looked(boot: TaskId, idle: TaskId, run: seq<Kernel>, i: nat, j: nat, t: TaskId, w: Wait)
    returns (m: nat)
    requires IsRun(boot, idle, run) && i < j < |run| && Calls(run, i, t, w) && InCall(run, i, j, t)
    requires t in run[j].pc && (run[j].pc[t].Outside? || run[j].pc[t].Finishing?)
    ensures i < m < j && Holds(run[m], w)
    decreases j
  {
    hide Step, Inv, Holds, Calls;
    var sh := Follow(boot, idle, run, i, j, t, w);
    if run[j - 1].pc[t].Finishing? {
      m := Looked(boot, idle, run, i, j - 1, t, w);
    } else {
      m := j - 1;
    }
  }

  /** A task inside its wait loop and past the check, asleep. */
  predicate Asleep(k: Kernel, t: TaskId) {
    t in k.state && k.state[t] == INTERRUPTIBLE && t in k.pc && (k.pc[t].Yielding? || k.pc[t].Preparing?)
  }

  lemma AsleepUntrue(idle: TaskId, k: Kernel, sh: Shape, t: TaskId, w: Wait)
    requires Inv(idle, k, sh) && t in sh.ring && Asleep(k, t) && k.pc[t].w == w
    ensures !Holds(k, w)
  {
    hide Holds, RingOf, Linked, Distinct;
    assert TaskOk(k, sh, t);
  }

  /** A sleep of `ms` milliseconds, in timer interrupts since the call: as long as the tick counter does not
      wrap, nobody returns from it before they amount to `ms` at 5 ms each, and who sleeps has not seen that
      many. */
  lemma SleepLasts(boot: TaskId, idle: TaskId, run: seq<Kernel>, i: nat, j: nat, t: TaskId, start: nat, ms: nat)
    requires IsRun(boot, idle, run) && i < j < |run| && Ticks(run, 0, j) < TWO32
    requires Calls(run, i, t, Sleep(start, ms)) && InCall(run, i, j, t)
    ensures t in run[j].pc
    ensures run[j].pc[t] == Outside ==> 5 * Ticks(run, i, j) >= ms
    ensures Asleep(run[j], t) ==> 5 * Ticks(run, i, j) < ms
  {
    hide Step, Inv, Condition;
    var w := Sleep(start, ms);
    var sh := Follow(boot, idle, run, i, j, t, w);
    if run[j].pc[t] == Outside {
      var m := Looked(boot, idle, run, i, j, t, w);
      CountsGrow(run, i, m, j);
      CountsGrow(run, 0, m, j);
      SleepTest(boot, idle, run, i, m, w);
    } else if Asleep(run[j], t) {
      AsleepUntrue(idle, run[j], sh, t, w);
      SleepTest(boot, idle, run, i, j, w);
    }
  }

  lemma SleepTest(boot: TaskId, idle: TaskId, run: seq<Kernel>, i: nat, m: nat, w: Wait)
    requires IsRun(boot, idle, run) && i <= m < |run| && Ticks(run, 0, m) < TWO32 && w.Sleep? && w.start == run[i].jiffies
    ensures Holds(run[m], w) <==> 5 * Ticks(run, i, m) >= w.ms
  {
    hide Step, Ticks, Keys;
    CountsAdd(run, i, m);
    Counters(boot, idle, run, i);
    Counters(boot, idle, run, m);
    SleepTestIff(w.start, run[m].jiffies, w.ms, run[m].keyIndex);
  }

  /** The wait of `kb_getkey`, in key interrupts since the call: nobody returns from it without a look at which
      their number was not a multiple of 128, and who sleeps has seen a multiple of 128. */
  lemma KeyWaitLasts(boot: TaskId, idle: TaskId, run: seq<Kernel>, i: nat, j: nat, t: TaskId, seen: nat)
    requires IsRun(boot, idle, run) && i < j < |run|
    requires Calls(run, i, t, Key(seen)) && InCall(run, i, j, t)
    ensures t in run[j].pc
    ensures run[j].pc[t] == Outside ==> exists m: nat :: i < m < j && Keys(run, i, m) % 128 != 0
    ensures Asleep(run[j], t) ==> Keys(run, i, j) % 128 == 0
  {
    hide Step, Inv, Condition;
    var w := Key(seen);
    var sh := Follow(boot, idle, run, i, j, t, w);
    if run[j].pc[t] == Outside {
      var m := Looked(boot, idle, run, i, j, t, w);
      KeyTest(boot, idle, run, i, m, w);
    } else if Asleep(run[j], t) {
      AsleepUntrue(idle, run[j], sh, t, w);
      KeyTest(boot, idle, run, i, j, w);
    }
  }

  lemma KeyTest(boot: TaskId, idle: TaskId, run: seq<Kernel>, i: nat, m: nat, w: Wait)
    requires IsRun(boot, idle, run) && i <= m < |run| && w.Key? && w.seen == run[i].keyIndex % 256
    ensures Holds(run[m], w) <==> Keys(run, i, m) % 128 != 0
  {
    hide Step, Ticks, Keys;
    CountsAdd(run, i, m);
    Counters(boot, idle, run, i);
    Counters(boot, idle, run, m);
    KeyTestIff(Keys(run, 0, i), Keys(run, i, m), run[m].jiffies);
    InByte(Keys(run, 0, i));
  }

  lemma InByte(n: nat)
    ensures n % KEY_RING_SIZE % 256 == n % KEY_RING_SIZE
  {
  }
}
