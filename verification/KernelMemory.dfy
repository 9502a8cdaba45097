/** The kernel heap and the device windows over one address space and one page allocator. */
module KernelMemory {
  import opened Options
  import opened PageTables
  import opened AddressSpaces
  import opened HeapModel
  import opened KernelHeap
  import opened Mmio
  import PA = PageAllocator
  import R = Regions

  /** What a caller may ask for, in any order: memory, the release of the `i`-th block it still holds, or a
      device window. */
  datatype Request = Allocate(size: nat) | Release(i: nat) | MapDevice(phys: nat, size: nat)

  /** Pages that are translated as before keep the heap. */
  lemma HeapSurvives(mem: Memory, mem': Memory, cr3: nat, start: nat, frames: seq<nat>, lo: nat, hi: nat)
    requires Mapped(mem, cr3, start, frames) && KeepsOutside(mem, mem', cr3, lo, hi)
    requires start + PAGE_SIZE * |frames| <= lo && lo <= SPACE
    ensures Mapped(mem', cr3, start, frames)
  {
    hide Walk;
  }

  /** So do they keep the device windows. */
  lemma WindowsSurvive(mem: Memory, mem': Memory, cr3: nat, windows: seq<Window>, ptr: nat, lo: nat, hi: nat)
    requires Laid(windows, ptr) && ptr <= SPACE && KeepsOutside(mem, mem', cr3, lo, hi) && hi <= MMIO_START
    requires forall i :: 0 <= i < |windows| ==> WindowOk(mem, cr3, windows[i])
    ensures forall i :: 0 <= i < |windows| ==> WindowOk(mem', cr3, windows[i])
  {
    hide Walk;
    forall i | 0 <= i < |windows| ensures WindowOk(mem', cr3, windows[i]) {
      assert WindowOk(mem, cr3, windows[i]);
      LaidBelow(windows, ptr, i);
    }
  }

  class KernelSpace {
    const heap: HeapState
    const mmio: MmioWindows

    ghost function Objects(): set<object> {
      {heap, mmio, heap.space, heap.space.pages} + heap.space.pages.Bitmaps()
    }

    ghost predicate Valid()
      reads Objects()
    {
      && heap.space == mmio.space
      && heap.Valid() && mmio.Valid()
    }

    constructor (heap: HeapState, mmio: MmioWindows)
      requires heap.space == mmio.space && heap.Valid() && mmio.Valid()
      ensures Valid() && this.heap == heap && this.mmio == mmio
    {
      ghost var views := heap.space.pages.Views();
      this.heap, this.mmio := heap, mmio;
      new;
      hide TablesOk, Walk, KernelReady, R.FreePages, R.Ok, Mapped, WindowOk, Laid, HeapInv;
      assert heap.space.pages.Views() == views;
    }

    /** A clean request for memory keeps every window, and every block that is held. */
    method Malloc(size: nat) returns (r: nat)
      requires Valid() && size < WORD && heap.Clean(size)
      modifies heap, heap.space`mem, heap.space.pages`lastFree, heap.space.pages.Bitmaps()
      ensures Valid()
      ensures r == NULL ==> heap.live == old(heap.live)
      ensures r != NULL ==> HEADER <= r && r % ALIGN == 0 && r - HEADER !in old(heap.live)
                            && heap.live == old(heap.live) + {r - HEADER}
      ensures r != NULL ==> size <= SizeOf(heap.State(), r - HEADER) < size + ALIGN
    {
      hide HeapState.Clean, KeepsOutside, KernelReady, TablesOk, R.Ok, R.FreePages, Mapped, WindowOk, Laid, Tiles,
        Linked, Reused;
      ghost var mem, end := heap.space.mem, heap.kernelHeapEnd;
      NotABitmap();
      r := heap.Malloc(size);
      heap.BackedFacts();
      WindowsSurvive(mem, heap.space.mem, heap.space.cr3, mmio.windows, mmio.ptr, end, heap.kernelHeapEnd);
    }

    /** A release touches only the heap's own headers. */
    method Free(block: nat)
      requires Valid() && HEADER <= block && block - HEADER in heap.live
      modifies heap
      ensures Valid() && heap.live == old(heap.live) - {block - HEADER}
    {
      NotABitmap();
      heap.Free(block);
    }

    /** A device window keeps every page of the heap, and takes none. */
    method Map(physAddr: nat, size: nat) returns (r: Option<nat>)
      requires Valid() && size < SPACE && mmio.ptr + Span32(physAddr, size) < SPACE
      modifies mmio, heap.space`mem, heap.space.pages`lastFree, heap.space.pages.Bitmaps()
      ensures Valid()
      ensures r.None? <==> old(mmio.ptr) + Span32(physAddr, size) > MMIO_LIMIT
    {
      hide KeepsOutside, KernelReady, TablesOk, R.Ok, R.FreePages, Mapped, WindowOk, Laid;
      ghost var mem, ptr := heap.space.mem, mmio.ptr;
      ghost var views := heap.space.pages.Views();
      NotABitmap();
      heap.BackedFacts();
      r := mmio.Map(physAddr, size);
      HeapSurvives(mem, heap.space.mem, heap.space.cr3, heap.kernelHeapStart, heap.frames, ptr, mmio.ptr);
      assert heap.space.pages.Views() == views;
    }

    /** The objects differ from one another and from the bitmaps. */
    lemma NotABitmap()
      ensures heap !in heap.space.pages.Bitmaps() && mmio !in heap.space.pages.Bitmaps()
    {
    }
  }

  /** The blocks that callers hold, by the addresses of their headers: each allocated block once. */
  ghost predicate Holding(held: seq<nat>, live: set<nat>) {
    Distinct(held) && forall a :: a in held <==> a in live
  }

  lemma HoldsMore(held: seq<nat>, live: set<nat>, a: nat)
    requires Holding(held, live) && a !in live
    ensures Holding(held + [a], live + {a})
  {
  }

  lemma HoldsLess(held: seq<nat>, live: set<nat>, i: nat)
    requires Holding(held, live) && i < |held|
    ensures held[i] in live && Holding(held[..i] + held[i + 1..], live - {held[i]})
  {
    CutMembers(held, i);
  }

  /** Any requests in any order, as long as each is one that the routines are sound for: the heap stays
      tiled and mapped, the windows stay mapped and apart from it, and the callers hold exactly the
      blocks that are allocated, each once. */
  method Run(k: KernelSpace, requests: seq<Request>) returns (held: seq<nat>)
    requires k.Valid() && k.heap.live == {}
    modifies k.heap, k.mmio, k.heap.space`mem, k.heap.space.pages`lastFree, k.heap.space.pages.Bitmaps()
    ensures k.Valid() && Holding(held, k.heap.live)
  {
    hide KernelSpace.Valid, Holding;
    held := [];
    NothingHeld();
    var n := 0;
    while n < |requests|
      invariant 0 <= n <= |requests| && k.Valid() && Holding(held, k.heap.live)
    {
      held := Serve(k, requests[n], held);
      n := n + 1;
    }
  }

  lemma NothingHeld()
    ensures Holding([], {})
  {
  }

  /** One request, if it is one that the routines are sound for. */
  method Serve(k: KernelSpace, request: Request, held0: seq<nat>) returns (held: seq<nat>)
    requires k.Valid() && Holding(held0, k.heap.live)
    modifies k.heap, k.mmio, k.heap.space`mem, k.heap.space.pages`lastFree, k.heap.space.pages.Bitmaps()
    ensures k.Valid() && Holding(held, k.heap.live)
  {
    hide MmioWindows.Valid, HeapState.Clean, HeapState.Backed, HeapInv, Span32, Holding;
    held := held0;
    ghost var live := k.heap.live;
    match request
    case Allocate(size) =>
      var clean := size < WORD;
      if clean {
        clean := k.heap.IsClean(size);
      }
      if clean {
        var r := k.Malloc(size);
        if r != NULL {
          HoldsMore(held, live, r - HEADER);
          held := held + [r - HEADER];
        }
      }
    case Release(i) =>
      if i < |held| {
        HoldsLess(held, live, i);
        k.Free(held[i] + HEADER);
        held := held[..i] + held[i + 1..];
      }
    case MapDevice(phys, size) =>
      if size < SPACE && k.mmio.ptr + Span32(phys, size) < SPACE {
        var window := k.Map(phys, size);
      }
  }
}
