/** Whole runs of the page allocator: exclusive ownership, and the pages that the boot code reserves
    for the kernel image. */
module PageRuns {
  import opened Bitmap
  import opened Regions

  /** What a call of `AllocPage` or `DeallocPage` did. */
  datatype Event = Allocated(page: nat) | Exhausted | Deallocated(page: nat)

  ghost predicate Step(vs: seq<Region>, e: Event, vs': seq<Region>)
    requires Ok(vs) && Ok(vs')
  {
    match e
    case Allocated(p) => p in FreePages(vs) && OnlyMarks(vs, vs', p, true)
    case Exhausted => FreePages(vs) == {} && vs' == vs
    case Deallocated(p) =>
      if Marked(vs, p, true) || Marked(vs, p, false) then OnlyMarks(vs, vs', p, false) else vs' == vs
  }

  ghost predicate IsRun(states: seq<seq<Region>>, events: seq<Event>) {
    && |states| == |events| + 1
    && (forall i :: 0 <= i < |states| ==> Ok(states[i]))
    && forall i :: 0 <= i < |events| ==> Step(states[i], events[i], states[i + 1])
  }

  lemma IsRunPrefix(states: seq<seq<Region>>, events: seq<Event>, n: nat)
    requires IsRun(states, events) && n <= |events|
    ensures IsRun(states[..n + 1], events[..n])
  {
    forall i | 0 <= i < n ensures Step(states[..n + 1][i], events[..n][i], states[..n + 1][i + 1]) {
      assert Step(states[i], events[i], states[i + 1]);
    }
  }

  lemma FreeIsClear(vs: seq<Region>, p: nat)
    requires Ok(vs) && p in FreePages(vs)
    ensures Marked(vs, p, false) && !Marked(vs, p, true)
  {
    var i :| 0 <= i < |vs| && FreeIn(vs[i], p);
    assert vs[i].Contains(p);
    forall j | 0 <= j < |vs| && vs[j].Contains(p) ensures j == i {
      OneHolder(vs, i, j, p);
    }
  }

  lemma StaysMarked(vs: seq<Region>, e: Event, vs': seq<Region>, p: nat)
    requires Ok(vs) && Ok(vs') && Step(vs, e, vs') && Marked(vs, p, true) && e != Deallocated(p)
    ensures Marked(vs', p, true)
  {
    hide Marked, IsFree;
  }

  /** A page that is marked stays marked, and is not handed out, until it is deallocated. */
  lemma {:induction false} MarkedUntilDeallocated(states: seq<seq<Region>>, events: seq<Event>, i: nat, j: nat, p: nat)
    requires IsRun(states, events) && i <= j <= |events|
    requires Marked(states[i], p, true)
    requires forall n :: i <= n < j ==> events[n] != Deallocated(p)
    ensures Marked(states[j], p, true)
    ensures j < |events| ==> events[j] != Allocated(p)
    decreases j - i
  {
    if i < j {
      assert Step(states[i], events[i], states[i + 1]);
      StaysMarked(states[i], events[i], states[i + 1], p);
      MarkedUntilDeallocated(states, events, i + 1, j, p);
    } else if j < |events| && events[j] == Allocated(p) {
      assert Step(states[j], events[j], states[j + 1]);
      FreeIsClear(states[j], p);
      assert false;
    }
  }

  /** No page is handed out twice without a deallocation of it in between. */
  lemma NoDoubleAllocation(states: seq<seq<Region>>, events: seq<Event>, i: nat, j: nat, p: nat)
    requires IsRun(states, events) && i < j < |events|
    requires events[i] == Allocated(p) && events[j] == Allocated(p)
    ensures exists n :: i < n < j && events[n] == Deallocated(p)
  {
    assert Step(states[i], events[i], states[i + 1]);
    FreeIsClear(states[i], p);
    assert Marked(states[i + 1], p, true);
    if forall n :: i + 1 <= n < j ==> events[n] != Deallocated(p) {
      MarkedUntilDeallocated(states, events, i + 1, j, p);
      assert false;
    }
  }

  // ----- deallocation discipline

  /** Every deallocation is of a page handed out before and not deallocated since. */
  ghost predicate Disciplined(events: seq<Event>) {
    forall n :: 0 <= n < |events| && events[n].Deallocated? ==> Owned(events[..n], events[n].page)
  }

  ghost predicate Owned(events: seq<Event>, p: nat) {
    exists i :: 0 <= i < |events| && events[i] == Allocated(p)
                && forall n :: i < n < |events| ==> events[n] != Deallocated(p)
  }

  lemma StaysReserved(vs: seq<Region>, e: Event, vs': seq<Region>, p: nat)
    requires Ok(vs) && Ok(vs') && Step(vs, e, vs') && !Marked(vs, p, false) && e != Deallocated(p)
    ensures !Marked(vs', p, false) && e != Allocated(p)
  {
    if e == Allocated(p) {
      FreeIsClear(vs, p);
      assert false;
    }
  }

  /** A page without a clear bit at the start of a disciplined run is never handed out. */
  lemma {:induction false} ReservedNeverAllocated(states: seq<seq<Region>>, events: seq<Event>, p: nat)
    requires IsRun(states, events) && Disciplined(events)
    requires !Marked(states[0], p, false)
    ensures Allocated(p) !in events && !Marked(states[|events|], p, false)
    decreases |events|
  {
    if |events| > 0 {
      var n := |events| - 1;
      var before := events[..n];
      IsRunPrefix(states, events, n);
      DisciplinedPrefix(events, n);
      assert states[..n + 1][0] == states[0] && states[..n + 1][n] == states[n];
      ReservedNeverAllocated(states[..n + 1], before, p);
      assert events == before + [events[n]];
      assert events[n].Deallocated? ==> Owned(before, events[n].page);
      assert Step(states[n], events[n], states[n + 1]);
      StaysReserved(states[n], events[n], states[n + 1], p);
    }
  }

  /** A page that is not free at the start of a disciplined run is never handed out: nobody can give back
      what nobody was given. */
  lemma {:induction false} NotFreeNeverAllocated(states: seq<seq<Region>>, events: seq<Event>, p: nat)
    requires IsRun(states, events) && Disciplined(events)
    requires !IsFree(states[0], p)
    ensures Allocated(p) !in events && !IsFree(states[|events|], p)
    decreases |events|
  {
    hide IsFree, OnlyMarks;
    if |events| > 0 {
      var n := |events| - 1;
      var before := events[..n];
      IsRunPrefix(states, events, n);
      DisciplinedPrefix(events, n);
      assert states[..n + 1][0] == states[0] && states[..n + 1][n] == states[n];
      NotFreeNeverAllocated(states[..n + 1], before, p);
      assert events == before + [events[n]];
      assert events[n].Deallocated? ==> Owned(before, events[n].page);
      assert Step(states[n], events[n], states[n + 1]);
      StaysTaken(states[n], events[n], states[n + 1], p);
    }
  }

  lemma StaysTaken(vs: seq<Region>, e: Event, vs': seq<Region>, p: nat)
    requires Ok(vs) && Ok(vs') && Step(vs, e, vs') && !IsFree(vs, p) && e != Deallocated(p)
    ensures !IsFree(vs', p) && e != Allocated(p)
  {
    hide IsFree;
  }

  lemma DisciplinedPrefix(events: seq<Event>, n: nat)
    requires Disciplined(events) && n <= |events|
    ensures Disciplined(events[..n])
  {
    forall m | 0 <= m < n && events[..n][m].Deallocated? ensures Owned(events[..n][..m], events[..n][m].page) {
      assert events[..n][..m] == events[..m];
      assert Owned(events[..m], events[m].page);
    }
  }

  // ----- the kernel image

  const PAGE_SIZE: nat := 4096

  /** The pages that the boot code reserves are those from `start >> 12` up to, and not including,
      `end >> 12`.  They cover every byte of the image exactly when the image ends on a page boundary;
      otherwise its last, partial page stays allocatable. */
  lemma ImageCoveredIff(start: nat, end: nat)
    requires start < end
    ensures (forall a :: start <= a < end ==> start / PAGE_SIZE <= PageOf(a) < end / PAGE_SIZE) <==> end % PAGE_SIZE == 0
  {
    if end % PAGE_SIZE != 0 {
      assert PageOf(end - 1) == end / PAGE_SIZE;
    }
  }

  /** No page that holds a byte of the image is ever handed out. */
  ghost predicate ImageSafe(vs: seq<Region>, start: nat, end: nat)
    requires Ok(vs)
  {
    forall states, events, a :: IsRun(states, events) && Disciplined(events) && states[0] == vs && start <= a < end ==>
      Allocated(PageOf(a)) !in events
  }

  /** After the reservation loop the image is safe exactly when it ends on a page boundary, or the page of its
      end was not free before. */
  lemma ImageSafeIff(vs0: seq<Region>, vs: seq<Region>, start: nat, end: nat)
    requires Ok(vs0) && Ok(vs) && SameShape(vs0, vs) && start < end
    requires SetsWithin(vs0, vs, start / PAGE_SIZE, end / PAGE_SIZE)
    requires forall p: nat :: start / PAGE_SIZE <= p < end / PAGE_SIZE ==> !Marked(vs, p, false)
    ensures ImageSafe(vs, start, end) <==> (end % PAGE_SIZE == 0 || !IsFree(vs0, end / PAGE_SIZE))
  {
    hide IsFree, Marked, SetsWithin, SameShape;
    var last := end / PAGE_SIZE;
    FreeOutside(vs0, vs, start / PAGE_SIZE, last, last);
    if end % PAGE_SIZE == 0 || !IsFree(vs0, last) {
      forall states, events, a | IsRun(states, events) && Disciplined(events) && states[0] == vs && start <= a < end
        ensures Allocated(PageOf(a)) !in events
      {
        PageRange(start, end, a);
        if PageOf(a) < last {
          ClearFree(vs, PageOf(a));
        }
        NotFreeNeverAllocated(states, events, PageOf(a));
      }
    } else {
      var states, events := TakePage(vs, last);
      var a := if start < last * PAGE_SIZE then last * PAGE_SIZE else start;
      PageOfLast(start, end, a);
      assert Allocated(PageOf(a)) in events;
    }
  }

  lemma PageRange(start: nat, end: nat, a: nat)
    requires start <= a < end
    ensures start / PAGE_SIZE <= PageOf(a) <= end / PAGE_SIZE
    ensures end % PAGE_SIZE == 0 ==> PageOf(a) < end / PAGE_SIZE
  {
  }

  lemma PageOfLast(start: nat, end: nat, a: nat)
    requires start < end && end % PAGE_SIZE != 0
    requires a == if start < end / PAGE_SIZE * PAGE_SIZE then end / PAGE_SIZE * PAGE_SIZE else start
    ensures start <= a < end && PageOf(a) == end / PAGE_SIZE
  {
    var q := end / PAGE_SIZE;
    assert end == q * PAGE_SIZE + end % PAGE_SIZE;
  }

  /** A free page is handed out in a run of one step. */
  lemma TakePage(vs: seq<Region>, p: nat) returns (states: seq<seq<Region>>, events: seq<Event>)
    requires Ok(vs) && IsFree(vs, p)
    ensures IsRun(states, events) && Disciplined(events) && states[0] == vs && events == [Allocated(p)]
  {
    var i :| 0 <= i < |vs| && FreeIn(vs[i], p);
    FreeInFree(vs, i, p);
    PutOnlyMarks(vs, i, p, true);
    var vs' := Put(vs, i, p, true);
    states, events := [vs, vs'], [Allocated(p)];
    assert Step(vs, Allocated(p), vs');
  }

  lemma ClearFree(vs: seq<Region>, p: nat)
    requires Ok(vs) && !Marked(vs, p, false)
    ensures !IsFree(vs, p)
  {
    if IsFree(vs, p) {
      var i :| 0 <= i < |vs| && FreeIn(vs[i], p);
      FreeInFree(vs, i, p);
      FreeIsClear(vs, p);
    }
  }

  /** Outside the reserved range the free pages are those from before. */
  lemma FreeOutside(vs0: seq<Region>, vs: seq<Region>, min: nat, max: nat, p: nat)
    requires Ok(vs0) && Ok(vs) && SameShape(vs0, vs) && SetsWithin(vs0, vs, min, max) && !(min <= p < max)
    ensures IsFree(vs, p) <==> IsFree(vs0, p)
  {
    hide SetsWithin, IsFree, Marked;
    TrackedClear(vs0, p);
    TrackedClear(vs, p);
    TrackedSame(vs0, vs, p);
    MarkedOutside(vs0, vs, min, max, p);
  }

  lemma MarkedOutside(vs0: seq<Region>, vs: seq<Region>, min: nat, max: nat, p: nat)
    requires Ok(vs0) && Ok(vs) && SetsWithin(vs0, vs, min, max) && !(min <= p < max)
    ensures Marked(vs, p, false) <==> Marked(vs0, p, false)
  {
    hide Marked;
  }

  lemma TrackedSame(vs0: seq<Region>, vs: seq<Region>, p: nat)
    requires SameShape(vs0, vs)
    ensures Tracked(vs0, p) <==> Tracked(vs, p)
  {
    if i :| 0 <= i < |vs0| && vs0[i].Tracks(p) {
      assert vs[i].Tracks(p);
    }
    if i :| 0 <= i < |vs| && vs[i].Tracks(p) {
      assert vs0[i].Tracks(p);
    }
  }

  /** A page is free when it is tracked and its bit is clear. */
  lemma TrackedClear(vs: seq<Region>, p: nat)
    requires Ok(vs)
    ensures IsFree(vs, p) <==> Tracked(vs, p) && Marked(vs, p, false)
  {
    if i :| 0 <= i < |vs| && FreeIn(vs[i], p) {
      assert vs[i].Tracks(p) && vs[i].Contains(p);
    }
    if Tracked(vs, p) && Marked(vs, p, false) {
      var i :| 0 <= i < |vs| && vs[i].Tracks(p);
      var j :| 0 <= j < |vs| && vs[j].Contains(p) && !Bit(vs[j].bits, p - vs[j].base);
      OneHolder(vs, i, j, p);
      assert FreeIn(vs[i], p);
    }
  }

  function PageOf(address: nat): nat {
    address / PAGE_SIZE
  }
}
