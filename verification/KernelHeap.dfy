/** `malloc` and `free` over the heap's own variables, growing page by page into mapped memory. */
module KernelHeap {
  import opened Options
  import opened PageAllocator
  import opened PageTables
  import opened AddressSpaces
  import opened HeapModel
  import R = Regions
  import PageRuns

  const KERNEL_BASE: nat := 0xC000_0000
  /** The heap must stay below the device windows. */
  const HEAP_LIMIT: nat := 0xE000_0000

  /** The pages of the heap are mapped to `frames`, in order, and may be written. */
  ghost predicate Mapped(mem: Memory, cr3: nat, start: nat, frames: seq<nat>) {
    forall v: nat :: start <= v < start + PAGE_SIZE * |frames| ==> 
      Walk(mem, cr3, v) == Some(Mapping(frames[(v - start) / PAGE_SIZE], true))
  }

  /** The frames are different, belong to nobody else and hold no directory or table. */
  ghost predicate OwnFrames(frames: seq<nat>, free: set<nat>, tables: set<nat>) {
    && (forall i, j :: 0 <= i < j < |frames| ==> frames[i] != frames[j])
    && forall f :: f in frames ==> f !in free && f !in tables
  }

  lemma OwnGrows(frames: seq<nat>, free: set<nat>, tables: set<nat>, page: nat)
    requires OwnFrames(frames, free, tables) && page in free && page !in tables
    ensures OwnFrames(frames + [page], free - {page}, tables) && |free - {page}| == |free| - 1
  {
  }

  /** After boot there is one region, and the image lies in the first 4 MB of the kernel half: however
      many pages are free, the heap cannot reach the device windows. */
  lemma BootHeapFits(vs: seq<R.Region>, kernelEnd: nat)
    requires R.Ok(vs) && |vs| == 1 && kernelEnd <= KERNEL_BASE + 0x40_0000
    ensures kernelEnd + PAGE_SIZE + PAGE_SIZE * |R.FreePages(vs)| <= HEAP_LIMIT
  {
    R.FreeAtMost(vs);
  }

  lemma MappedGrows(mem: Memory, mem': Memory, cr3: nat, start: nat, frames: seq<nat>, end: nat, frame: nat)
    requires Mapped(mem, cr3, start, frames) && start % PAGE_SIZE == 0
    requires end == start + PAGE_SIZE * |frames| && end + PAGE_SIZE <= HEAP_LIMIT
    requires MapsPage(mem, mem', cr3, end, Mapping(frame, true)) && HasTable(mem, cr3, PdIndex(end))
    ensures Mapped(mem', cr3, start, frames + [frame])
  {
    hide Walk, HasTable;
    var s := start / PAGE_SIZE;
    forall v: nat | start <= v < end + PAGE_SIZE
      ensures Walk(mem', cr3, v) == Some(Mapping((frames + [frame])[(v - start) / PAGE_SIZE], true))
    {
      PageNumber(s, |frames|, v - start);
    }
  }

  lemma PageIsAligned(a: nat)
    requires a % PAGE_SIZE == 0
    ensures a % ALIGN == 0
  {
    assert a == 16 * (256 * (a / 4096));
  }

  lemma PageNumber(s: nat, n: nat, k: nat)
    requires k < PAGE_SIZE * (n + 1)
    ensures (s * PAGE_SIZE + k) / PAGE_SIZE == s + k / PAGE_SIZE
    ensures (s * PAGE_SIZE + PAGE_SIZE * n) / PAGE_SIZE == s + n
    ensures k / PAGE_SIZE <= n && (k / PAGE_SIZE == n <==> PAGE_SIZE * n <= k)
  {
    var q := k / 4096;
    assert s * 4096 + k == 4096 * (s + q) + k % 4096;
    assert s * 4096 + 4096 * n == 4096 * (s + n);
  }

  class HeapState {
    const space: AddressSpace
    const kernelHeapStart: nat
    var kernelHeapEnd: nat
    var kernelHeap: nat
    var freelist: nat
    var headers: map<nat, Header>
    // The frames behind the heap, the blocks in address order, the free list, and what callers hold.
    ghost var frames: seq<nat>
    ghost var blocks: seq<nat>
    ghost var fl: seq<nat>
    ghost var live: set<nat>

    ghost function State(): Heap
      reads this
    {
      Heap(kernelHeapStart, kernelHeap, freelist, headers)
    }

    /** The mapped part: page aligned, made of frames of its own, and room for every free page below the
        limit. */
    ghost predicate Backed()
      reads this`kernelHeapEnd, this`frames, space, space.pages, space.pages.Bitmaps()
    {
      && space.Valid() && KernelReady(space.mem, space.cr3)
      && KERNEL_BASE <= kernelHeapStart && kernelHeapStart % PAGE_SIZE == 0
      && kernelHeapEnd == kernelHeapStart + PAGE_SIZE * |frames|
      && kernelHeapEnd + PAGE_SIZE * |space.pages.Free()| <= HEAP_LIMIT
      && Mapped(space.mem, space.cr3, kernelHeapStart, frames)
      && OwnFrames(frames, space.pages.Free(), space.mem.Keys)
    }

    ghost predicate Blocks()
      reads this
    {
      HeapInv(State(), blocks, fl, live)
    }

    ghost predicate Valid()
      reads this, space, space.pages, space.pages.Bitmaps()
    {
      Backed() && kernelHeap <= kernelHeapEnd && Blocks()
    }

    /** `malloc_init` */
    constructor (space: AddressSpace, kernelEnd: nat)
      requires space.Valid() && KernelReady(space.mem, space.cr3) && KERNEL_BASE <= kernelEnd
      requires kernelEnd + PAGE_SIZE + PAGE_SIZE * |space.pages.Free()| <= HEAP_LIMIT
      ensures Valid() && this.space == space && live == {} && blocks == []
      ensures kernelEnd <= kernelHeapStart < kernelEnd + PAGE_SIZE && kernelHeapStart % PAGE_SIZE == 0
      ensures kernelHeap == kernelHeapEnd == kernelHeapStart
    {
      this.space := space;
      ghost var views, free := space.pages.Views(), space.pages.Free();
      var start := if kernelEnd % PAGE_SIZE != 0 then kernelEnd + (PAGE_SIZE - kernelEnd % PAGE_SIZE) else kernelEnd;
      kernelHeapStart := start;
      kernelHeapEnd := start;
      kernelHeap := start;
      freelist := NULL;
      headers := map[];
      frames, blocks, fl, live := [], [], [], {};
      new;
      hide TablesOk, Walk, KernelReady, R.FreePages, R.Ok;
      RoundUpPage(kernelEnd, start);
      assert space.pages.Views() == views;
      assert space.pages.Free() == free;
    }

    lemma RoundUpPage(kernelEnd: nat, start: nat)
      requires start == if kernelEnd % PAGE_SIZE != 0 then kernelEnd + (PAGE_SIZE - kernelEnd % PAGE_SIZE) else kernelEnd
      ensures start % PAGE_SIZE == 0 && kernelEnd <= start < kernelEnd + PAGE_SIZE
    {
    }

    /** `heap_grow` */
    method HeapGrow() returns (ok: bool)
      requires Backed()
      modifies this`kernelHeapEnd, this`frames, space`mem, space.pages`lastFree, space.pages.Bitmaps()
      ensures Backed()
      ensures ok <==> old(space.pages.Free()) != {}
      ensures !ok ==> space.pages.Free() == {}
      ensures kernelHeapEnd == old(kernelHeapEnd) + if ok then PAGE_SIZE else 0
      ensures ok ==>
                && |frames| > 0 && frames == old(frames) + [frames[|frames| - 1]]
                && frames[|frames| - 1] in old(space.pages.Free())
                && MapsPage(old(space.mem), space.mem, space.cr3, old(kernelHeapEnd), Mapping(frames[|frames| - 1], true))
      ensures KeepsOutside(old(space.mem), space.mem, space.cr3, old(kernelHeapEnd), kernelHeapEnd)
      ensures space.mem.Keys == old(space.mem).Keys
    {
      hide PageRuns.Step, R.OnlyMarks, R.FreePages, R.Ok, R.WellFormed, R.Sorted, TablesOk, Walk, Mapped, MapsPage,
          SameSlots, KernelReady, R.NextFree, KeepsOutside, OwnFrames, HasTable, Entry, TableOf, PtIndex, FrameOf;
      NothingChanged(space.mem, space.cr3, kernelHeapEnd);
      ghost var before := space.pages.Free();
      KeysTaken();
      var page := space.pages.AllocPage();
      if page == None {
        return false;
      }
      OwnGrows(frames, before, space.mem.Keys, page.value);
      ghost var mem := space.mem;
      HeapSlot(kernelHeapEnd);
      ReadyTable(mem, space.cr3, PdIndex(kernelHeapEnd));
      FrameOfPage(page.value);
      space.MapPage(page.value * PAGE_SIZE, kernelHeapEnd, 3);
      StaysReady(mem, space.mem, space.cr3, PdIndex(kernelHeapEnd));
      HeapPage(kernelHeapStart, |frames|);
      OutsideGrows(mem, mem, space.mem, space.cr3, kernelHeapEnd, kernelHeapEnd, Mapping(page.value, true));
      MappedGrows(mem, space.mem, space.cr3, kernelHeapStart, frames, kernelHeapEnd, page.value);
      kernelHeapEnd := kernelHeapEnd + PAGE_SIZE;
      frames := frames + [page.value];
      return true;
    }

    /** Changing this object changes no bitmap. */
    lemma NotABitmap()
      ensures this !in space.pages.Bitmaps()
    {
    }

    /** Every byte of a block, header included, is mapped to a frame of the heap and may be written. */
    lemma BlockMapped(a: nat, v: nat)
      requires Valid() && a in blocks && a <= v < EndOf(State(), a)
      ensures MayStore(space.mem, space.cr3, v) && Walk(space.mem, space.cr3, v).value.frame in frames
    {
      hide Tiles, Linked, Walk, OwnFrames, KernelReady, TablesOk, R.FreePages, R.Ok;
      TilesMember(State(), kernelHeapStart, blocks, a);
      PageNumber(0, |frames|, v - kernelHeapStart);
    }

    lemma BackedFacts()
      requires Backed()
      ensures kernelHeapStart % ALIGN == 0 && kernelHeapEnd <= HEAP_LIMIT
    {
      hide Mapped, OwnFrames, KernelReady, TablesOk, R.FreePages, R.Ok;
      PageIsAligned(kernelHeapStart);
    }

    lemma HeapSlot(v: nat)
      requires KERNEL_BASE <= v < HEAP_LIMIT
      ensures KERNEL_SLOT <= PdIndex(v) < SELF && v < WINDOW
    {
    }

    lemma ReadyTable(mem: Memory, cr3: nat, i: nat)
      requires KernelReady(mem, cr3) && KERNEL_SLOT <= i < ENTRIES
      ensures HasTable(mem, cr3, i)
    {
    }

    /** Frames that hold tables are not free. */
    lemma KeysTaken()
      requires space.Valid()
      ensures forall f :: f in space.mem.Keys ==> f !in space.pages.Free()
    {
    }

    lemma HeapPage(start: nat, n: nat)
      requires start % PAGE_SIZE == 0
      ensures (start + PAGE_SIZE * n) % PAGE_SIZE == 0
    {
      PageNumber(start / PAGE_SIZE, n, 0);
    }

    lemma FrameOfPage(page: nat)
      ensures FrameOf(page * PAGE_SIZE) == page && (page * PAGE_SIZE) % PAGE_SIZE == 0
    {
    }

    /** The position of the first entry of the free list that `malloc` accepts. */
    ghost function FirstFit(aligned: nat): (i: nat)
      reads this
      ensures i <= |fl|
      ensures forall j :: 0 <= j < i ==> !Fits(State(), fl[j], aligned)
      ensures i < |fl| ==> Fits(State(), fl[i], aligned)
    {
      FirstFitFrom(State(), fl, aligned)
    }

    /** Whether a request leaves the heap sound: it fits in 32 bits with its header, and no free entry
        is accepted, or the accepted one is an exact fit behind the head of the list. */
    ghost predicate Clean(n: nat)
      reads this
    {
      var i := FirstFit(RoundUp16(n) % WORD);
      && HEADER + RoundUp16(n) < WORD
      && (i == |fl| || (i > 0 && SizeOf(State(), fl[i]) == RoundUp16(n)))
    }

    /** A check that a caller can make before the call. */
    method IsClean(n: nat) returns (clean: bool)
      requires Blocks()
      ensures clean == Clean(n)
    {
      hide Tiles;
      var prev, entry := FindFit(RoundUp16(n) % WORD);
      clean := HEADER + RoundUp16(n) < WORD && (entry == NULL || (prev != NULL && headers[entry].size == RoundUp16(n)));
      LinkedAll(State(), freelist, fl);
    }

    /** `malloc`, with both of its paths as written. */
    method Malloc(numBytes: nat) returns (r: nat)
      requires Valid() && numBytes < WORD
      modifies this, space`mem, space.pages`lastFree, space.pages.Bitmaps()
      ensures Backed()
      ensures var aligned := RoundUp16(numBytes) % WORD; var i := old(FirstFit(aligned));
              if i < |old(fl)| then
                r == old(fl)[i] + HEADER && State() == Reused(old(State()), PrevOf(old(fl), i), old(fl)[i], aligned)
              else if r == NULL then
                && State() == old(State()) && space.pages.Free() == {}
                && kernelHeap + (HEADER + aligned) % WORD > kernelHeapEnd
              else r == old(kernelHeap) + HEADER && State() == Bumped(old(State()), aligned)
      ensures r == NULL ==> Valid() && live == old(live)
      ensures old(Clean(numBytes)) && r != NULL ==>
                Valid() && r % ALIGN == 0 && r - HEADER !in old(live) && live == old(live) + {r - HEADER}
                && numBytes <= SizeOf(State(), r - HEADER) < numBytes + ALIGN
      ensures r != NULL ==> kernelHeapEnd == old(kernelHeapEnd) || kernelHeapEnd < kernelHeap + PAGE_SIZE
      ensures KeepsOutside(old(space.mem), space.mem, space.cr3, old(kernelHeapEnd), kernelHeapEnd)
      ensures space.mem.Keys == old(space.mem).Keys && kernelHeapEnd >= old(kernelHeapEnd)
    {
      hide Tiles, Linked, Reused, Bumped, HeapInv, HeapState.Backed, KeepsOutside;
      NotABitmap();
      NothingChanged(space.mem, space.cr3, kernelHeapEnd);
      RoundsUp(numBytes);
      var aligned := RoundUp16(numBytes) % WORD;
      var reused, at := MallocReuse(aligned);
      if reused {
        r := at;
        return;
      }
      var size := (HEADER + aligned) % WORD;
      var room := EnsureRoom(size);
      if !room {
        return NULL;
      }
      BackedFacts();
      r := TakeTop(size, aligned, numBytes);
    }

    /** The block at the top of the heap. */
    method TakeTop(size: nat, aligned: nat, ghost numBytes: nat) returns (r: nat)
      requires Blocks() && numBytes < WORD && kernelHeapStart % ALIGN == 0
      requires aligned == RoundUp16(numBytes) % WORD && size == (HEADER + aligned) % WORD && kernelHeap + size < WORD
      modifies this`kernelHeap, this`headers, this`blocks, this`live
      ensures r == old(kernelHeap) + HEADER && State() == Bumped(old(State()), aligned)
      ensures kernelHeap == old(kernelHeap) + size
      ensures HEADER + RoundUp16(numBytes) < WORD ==>
                && Blocks() && r % ALIGN == 0 && r - HEADER !in old(live) && live == old(live) + {r - HEADER}
                && numBytes <= SizeOf(State(), r - HEADER) < numBytes + ALIGN
    {
      hide Tiles, Linked;
      RoundsUp(numBytes);
      var block := kernelHeap;
      TopAligned(State(), kernelHeapStart, blocks);
      kernelHeap := kernelHeap + size;
      headers := headers[block := Header(NULL, aligned)];
      if HEADER + RoundUp16(numBytes) < WORD {
        BumpSound(old(State()), blocks, fl, live, aligned);
        TopIsNew(old(State()), kernelHeapStart, blocks);
        blocks := blocks + [block];
        live := live + {block};
      }
      r := block + HEADER;
    }

    /** The growing loop of `malloc`. */
    method EnsureRoom(size: nat) returns (ok: bool)
      requires Backed() && kernelHeap <= kernelHeapEnd
      modifies this`kernelHeapEnd, this`frames, space`mem, space.pages`lastFree, space.pages.Bitmaps()
      ensures Backed() && kernelHeap <= kernelHeapEnd
      ensures ok ==> kernelHeap + size <= kernelHeapEnd
      ensures ok ==> kernelHeapEnd == old(kernelHeapEnd) || kernelHeapEnd < kernelHeap + size + PAGE_SIZE
      ensures !ok ==> space.pages.Free() == {} && kernelHeap + size > kernelHeapEnd
      ensures KeepsOutside(old(space.mem), space.mem, space.cr3, old(kernelHeapEnd), kernelHeapEnd)
      ensures space.mem.Keys == old(space.mem).Keys && kernelHeapEnd >= old(kernelHeapEnd)
    {
      hide Mapped, MapsPage, R.Ok, R.FreePages, R.WellFormed, R.Sorted, TablesOk, KernelReady, KeepsOutside;
      NothingChanged(space.mem, space.cr3, kernelHeapEnd);
      while kernelHeapEnd - kernelHeap < size
        invariant Backed() && kernelHeap <= kernelHeapEnd && old(kernelHeapEnd) <= kernelHeapEnd
        invariant kernelHeapEnd == old(kernelHeapEnd) || kernelHeapEnd < kernelHeap + size + PAGE_SIZE
        invariant KeepsOutside(old(space.mem), space.mem, space.cr3, old(kernelHeapEnd), kernelHeapEnd)
        invariant space.mem.Keys == old(space.mem).Keys
        decreases kernelHeap + size - kernelHeapEnd
      {
        ghost var mem, end := space.mem, kernelHeapEnd;
        ok := HeapGrow();
        OutsideJoins(old(space.mem), mem, space.mem, space.cr3, old(kernelHeapEnd), end, kernelHeapEnd);
        if !ok {
          return false;
        }
      }
      return true;
    }

    /** The search of the free list, and the reuse of the entry it stops at. */
    method MallocReuse(aligned: nat) returns (reused: bool, r: nat)
      requires Blocks() && aligned % ALIGN == 0
      modifies this`freelist, this`headers, this`fl, this`live
      ensures var i := old(FirstFit(aligned));
              && reused == (i < |old(fl)|)
              && (reused ==> r == old(fl)[i] + HEADER
                             && State() == Reused(old(State()), PrevOf(old(fl), i), old(fl)[i], aligned))
      ensures reused && old(FirstFit(aligned)) > 0 && SizeOf(old(State()), old(fl)[old(FirstFit(aligned))]) == aligned ==>
                Blocks() && r % ALIGN == 0 && r - HEADER !in old(live) && live == old(live) + {r - HEADER}
                && SizeOf(State(), r - HEADER) == aligned
      ensures !reused ==> State() == old(State()) && fl == old(fl) && live == old(live)
    {
      hide Tiles, Linked, Reused;
      ghost var h := State();
      ghost var i := FirstFit(aligned);
      var prev, entry := FindFit(aligned);
      if entry == NULL {
        return false, NULL;
      }
      assert entry in blocks && entry !in live;
      TilesMember(h, kernelHeapStart, blocks, entry);
      WriteReuse(prev, entry, aligned);
      if i > 0 && SizeOf(h, entry) == aligned {
        ExactSound(h, blocks, fl, live, i, aligned);
        ReusedSize(h, prev, entry, aligned);
        fl := fl[..i] + fl[i + 1..];
        live := live + {entry};
      }
      return true, entry + HEADER;
    }

    /** The search alone: the first entry that fits, and the one before it. */
    method FindFit(aligned: nat) returns (prev: nat, entry: nat)
      requires Blocks()
      ensures prev == PrevOf(fl, FirstFit(aligned))
      ensures entry == if FirstFit(aligned) < |fl| then fl[FirstFit(aligned)] else NULL
      ensures FirstFit(aligned) < |fl| ==> entry != NULL && entry in headers && (prev != NULL ==> prev in headers)
    {
      hide Tiles, Linked;
      ghost var h := State();
      ghost var i: nat := 0;
      prev, entry := NULL, freelist;
      LinkedAll(h, freelist, fl);
      while entry != NULL
        invariant 0 <= i <= |fl| && entry == (if i < |fl| then fl[i] else NULL) && prev == PrevOf(fl, i)
        invariant forall j :: 0 <= j < i ==> !Fits(h, fl[j], aligned)
        decreases |fl| - i
      {
        var size := Xor15(headers[entry].size);
        if size >= aligned {
          FitIsFirst(h, fl, aligned, i);
          return;
        }
        LinkedSuffix(h, h.freelist, fl, i);
        prev := entry;
        entry := headers[entry].next;
        i := i + 1;
      }
      NoFit(h, fl, aligned);
    }

    /** The writes of the reuse path. */
    method WriteReuse(prev: nat, entry: nat, aligned: nat)
      requires entry in headers && (prev != NULL ==> prev in headers) && Fits(State(), entry, aligned)
      modifies this`freelist, this`headers
      ensures State() == Reused(old(State()), prev, entry, aligned)
    {
      var size := Xor15(headers[entry].size);
      if size - aligned > 16 {
        var next := entry + size;
        headers := headers[next := Header(headers[entry].next, size - aligned - ALIGN)];
        headers := headers[entry := Header(headers[entry].next, aligned)];
        if prev != NULL {
          headers := headers[prev := Header(next, headers[prev].size)];
        } else {
          freelist := next;
        }
      } else {
        if prev != NULL {
          headers := headers[prev := Header(headers[entry].next, headers[prev].size)];
        }
        headers := headers[entry := Header(headers[entry].next, aligned)];
      }
    }

    /** `free` of memory that `malloc` returned and that has not been freed since. */
    method Free(mem: nat)
      requires Valid() && HEADER <= mem && mem - HEADER in live
      modifies this`freelist, this`headers, this`blocks, this`fl, this`live
      ensures Valid() && live == old(live) - {mem - HEADER}
      ensures forall a :: a in live ==> SizeOf(State(), a) == SizeOf(old(State()), a)
      ensures State() == Freed(old(State()), old(fl), mem - HEADER)
      ensures Coalesced(old(State()), old(fl), State(), fl, mem - HEADER)
    {
      hide Tiles, Linked, Freed, HeapInv, HeapState.Backed;
      var f := mem - HEADER;
      ghost var h := State();
      NotABitmap();
      LiveBlock(h, blocks, fl, live, f);
      if headers[f].size % 16 == 0 {
        var prev, other := FindNeighbour(f);
        WriteFree(f, prev, other);
        FreedSizes(h, blocks, fl, live, f);
        blocks, fl := FreedKeeps(h, blocks, fl, live, f);
        live := live - {f};
      }
    }

    /** The writes of `free`. */
    method WriteFree(f: nat, prev: nat, other: nat)
      requires Blocks() && f in live && f in headers
      requires prev == PrevOf(fl, FirstTouching(State(), fl, f)) && (prev != NULL ==> prev in headers && prev != f)
      requires other == if FirstTouching(State(), fl, f) < |fl| then fl[FirstTouching(State(), fl, f)] else NULL
      requires FirstTouching(State(), fl, f) < |fl| ==> other != NULL && other in headers
      modifies this`freelist, this`headers
      ensures State() == Freed(old(State()), fl, f)
    {
      hide HeapInv, FirstTouching, AbsorbNext, AbsorbPrev;
      ghost var h := State();
      if other == NULL {
        headers := headers[f := Header(freelist, headers[f].size)];
        freelist := f;
      } else if f + headers[f].size + HEADER == other {
        AbsorbNextIs(h, prev, other, f);
        headers := headers[f := Header(headers[other].next, headers[f].size + (HEADER + headers[other].size))];
        if prev == NULL {
          freelist := f;
        } else {
          headers := headers[prev := Header(f, headers[prev].size)];
        }
      } else {
        AbsorbPrevIs(h, other, f);
        headers := headers[other := Header(headers[other].next, headers[other].size + (HEADER + headers[f].size))];
      }
    }

    /** The search of `free` for an entry that touches the block `f`. */
    method FindNeighbour(f: nat) returns (prev: nat, other: nat)
      requires Blocks() && f in live && f in headers
      ensures prev == PrevOf(fl, FirstTouching(State(), fl, f)) && (prev != NULL ==> prev in headers && prev != f)
      ensures other == if FirstTouching(State(), fl, f) < |fl| then fl[FirstTouching(State(), fl, f)] else NULL
      ensures FirstTouching(State(), fl, f) < |fl| ==> other != NULL && other in headers
    {
      hide Tiles, Linked, FirstTouching;
      ghost var h := State();
      ghost var i: nat := 0;
      prev, other := NULL, freelist;
      LinkedAll(h, freelist, fl);
      while other != NULL
        invariant 0 <= i <= |fl| && other == (if i < |fl| then fl[i] else NULL) && prev == PrevOf(fl, i)
        invariant forall j :: 0 <= j < i ==> !Touches(h, fl[j], f)
        decreases |fl| - i
      {
        var freelistEnd := f + headers[f].size + HEADER;
        var otherEnd := other + headers[other].size + HEADER;
        if freelistEnd == other || f == otherEnd {
          TouchIsFirst(h, fl, f, i);
          return;
        }
        LinkedSuffix(h, h.freelist, fl, i);
        prev := other;
        other := headers[other].next;
        i := i + 1;
      }
      NoTouch(h, fl, f);
    }
  }

  lemma TouchIsFirst(h: Heap, fl: seq<nat>, f: nat, i: nat)
    requires i < |fl| && Touches(h, fl[i], f) && forall j :: 0 <= j < i ==> !Touches(h, fl[j], f)
    ensures FirstTouching(h, fl, f) == i
  {
    hide FirstTouching, Touches;
    var k := FirstTouching(h, fl, f);
    assert k <= i && i <= k;
  }

  lemma NoTouch(h: Heap, fl: seq<nat>, f: nat)
    requires forall j :: 0 <= j < |fl| ==> !Touches(h, fl[j], f)
    ensures FirstTouching(h, fl, f) == |fl|
  {
    hide FirstTouching, Touches;
  }

  function FirstFitFrom(h: Heap, fl: seq<nat>, aligned: nat): (i: nat)
    ensures i <= |fl|
    ensures forall j :: 0 <= j < i ==> !Fits(h, fl[j], aligned)
    ensures i < |fl| ==> Fits(h, fl[i], aligned)
  {
    if |fl| == 0 || Fits(h, fl[0], aligned) then 0 else 1 + FirstFitFrom(h, fl[1..], aligned)
  }

  lemma FitIsFirst(h: Heap, fl: seq<nat>, aligned: nat, i: nat)
    requires i < |fl| && Fits(h, fl[i], aligned) && forall j :: 0 <= j < i ==> !Fits(h, fl[j], aligned)
    ensures FirstFitFrom(h, fl, aligned) == i
  {
    hide FirstFitFrom, Fits;
    var k := FirstFitFrom(h, fl, aligned);
    assert k <= i && i <= k;
  }

  lemma NoFit(h: Heap, fl: seq<nat>, aligned: nat)
    requires forall j :: 0 <= j < |fl| ==> !Fits(h, fl[j], aligned)
    ensures FirstFitFrom(h, fl, aligned) == |fl|
  {
  }

  lemma LinkedAll(h: Heap, head: nat, fl: seq<nat>)
    requires Linked(h, head, fl)
    ensures head == if |fl| > 0 then fl[0] else NULL
    ensures forall j :: 0 <= j < |fl| ==> fl[j] in h.headers && fl[j] != NULL
  {
    forall j | 0 <= j < |fl| ensures fl[j] in h.headers && fl[j] != NULL {
      LinkedSuffix(h, head, fl, j);
    }
  }

  lemma {:induction false} TopAligned(h: Heap, from: nat, blocks: seq<nat>)
    requires Tiles(h, from, blocks) && from % ALIGN == 0
    ensures h.top % ALIGN == 0
    decreases |blocks|
  {
    if |blocks| != 0 {
      TopAligned(h, EndOf(h, from), blocks[1..]);
    }
  }

  lemma TopIsNew(h: Heap, from: nat, blocks: seq<nat>)
    requires Tiles(h, from, blocks)
    ensures h.top !in blocks
  {
    if h.top in blocks {
      TilesMember(h, from, blocks, h.top);
    }
  }

  lemma ReusedSize(h: Heap, prev: nat, cur: nat, aligned: nat)
    requires SizeOf(h, cur) == aligned && aligned % ALIGN == 0
    ensures SizeOf(Reused(h, prev, cur, aligned), cur) == aligned
  {
    FitsIff(h, cur, aligned);
  }

  lemma AbsorbNextIs(h: Heap, prev: nat, other: nat, f: nat)
    requires other in h.headers && f in h.headers && (prev != NULL ==> prev in h.headers && prev != f)
    ensures var size := h.headers[f].size + (HEADER + h.headers[other].size);
            var headers := h.headers[f := Header(h.headers[other].next, size)];
            AbsorbNext(h, prev, other, f) ==
              if prev == NULL then h.(headers := headers, freelist := f)
              else h.(headers := headers[prev := Header(f, headers[prev].size)])
  {
  }

  lemma AbsorbPrevIs(h: Heap, other: nat, f: nat)
    requires other in h.headers && f in h.headers
    ensures AbsorbPrev(h, other, f) ==
      h.(headers := h.headers[other := Header(h.headers[other].next, h.headers[other].size + (HEADER + h.headers[f].size))])
  {
  }
}
