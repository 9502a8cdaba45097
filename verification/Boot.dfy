/** From the memory map to a kernel address space with its heap and device windows. */
module Boot {
  import opened Options
  import opened Regions
  import opened PageAllocator
  import opened PageTables
  import opened AddressSpaces
  import opened PagingBoot
  import opened KernelHeap
  import opened Mmio
  import opened KernelMemory
  import PageRuns

  /** The page numbers of the image, whose last page may be partial: from `First` up to `Last`. */
  function First(kernelStart: nat): nat
    requires PagingBoot.KERNEL_BASE <= kernelStart
  {
    (kernelStart - PagingBoot.KERNEL_BASE) / PAGE_SIZE
  }

  function Last(kernelEnd: nat): nat
    requires PagingBoot.KERNEL_BASE <= kernelEnd
  {
    (kernelEnd - PagingBoot.KERNEL_BASE) / PAGE_SIZE
  }

  /** The region that the boot code sets up for a stretch of `pages` pages from `base` on. */
  function BootRegion(base: nat, pages: nat): Region {
    Region(base, if BITMAP_PAGES > pages then pages else BITMAP_PAGES, seq(MEMORY_BITMAP_SIZE, _ => 0))
  }

  /** The page allocator that the boot code leaves behind. */
  ghost predicate Reserved(vs0: seq<Region>, vs: seq<Region>, min: nat, max: nat) {
    && Ok(vs0) && Ok(vs) && SameShape(vs0, vs) && SetsWithin(vs0, vs, min, max)
    && forall p: nat :: min <= p < max ==> !Marked(vs, p, false)
  }

  /** The region set-up and the reservation loop. */
  method SetUpPages(base: nat, pages: nat, min: nat, max: nat) returns (a: Allocator)
    requires base + pages <= PAGE_LIMIT
    ensures fresh(a) && fresh(a.Bitmaps()) && a.Valid() && a.lastFree == 0
    ensures Reserved([BootRegion(base, pages)], a.Views(), min, max) && |a.regions| == 1
    ensures a.regions[0].base == base && a.regions[0].length == if pages < 16384 then pages else 16384
  {
    hide SetsWithin, Marked;
    var size := if BITMAP_PAGES > pages then pages else BITMAP_PAGES;
    a := new Allocator.EarlyInit(base, size);
    ghost var vs0 := a.Views();
    assert vs0 == [BootRegion(base, pages)];
    a.ReserveImage(min, max);
    assert a.Views()[0].base == vs0[0].base && a.Views()[0].length == vs0[0].length;
  }

  /** The boot tables lie in image pages that are wholly reserved. */
  ghost predicate BootTables(mem: Memory, b: nat, t: nat, min: nat, max: nat) {
    BootMapped(mem, b, t) && forall f :: f in mem ==> min <= f < max
  }

  /** The page allocator and the kernel's address space.  Where the image starts the region, as it does on
      this machine, the page directory is put into the page of the end of the image if that is not a page
      boundary. */
  method BootPaging(base: nat, pages: nat, min: nat, max: nat, mem: Memory, b: nat, t: nat)
    returns (r: Option<AddressSpace>)
    requires base + pages <= PAGE_LIMIT && min <= max && BootTables(mem, b, t, min, max)
    ensures r.Some? ==> fresh(r.value) && fresh(r.value.pages) && fresh(r.value.pages.Bitmaps())
    ensures r.Some? ==> r.value.Valid() && KernelReady(r.value.mem, r.value.cr3) && |r.value.pages.regions| == 1
    ensures r.Some? ==> MapsImage(r.value.mem, r.value.cr3, b, max + 1)
    ensures r.Some? && min <= base <= max && BootRegion(base, pages).Tracks(max) ==> r.value.cr3 == max
  {
    hide TablesOk, Walk, Entry, BootMapped, MapsImage, KernelReady, R.OnlyMarks, R.FreePages, R.Ok, R.Sorted, R.NextFree,
      Reserved;
    var allocator := SetUpPages(base, pages, min, max);
    ghost var vs := allocator.Views();
    ImageTaken(base, pages, vs, min, max);
    var space := new AddressSpace(allocator, mem, b);
    assert space.pages.Views() == vs;
    var ok := PagingEarlyInit(space, b, t, min, max + 1);
    if !ok {
      return None;
    }
    TailIsFirst(base, pages, vs, min, max, space.cr3);
    r := Some(space);
  }

  /** The boot sequence as far as memory goes: `base` and `pages` are the stretch of available memory that is
      used, `b` and `t` the frames of the boot directory and its table.  Without a result the source
      panics. */
  method BootMemory(base: nat, pages: nat, kernelStart: nat, kernelEnd: nat, mem: Memory, b: nat, t: nat)
    returns (r: Option<KernelSpace>)
    requires base + pages <= PAGE_LIMIT
    requires PagingBoot.KERNEL_BASE <= kernelStart <= kernelEnd <= PagingBoot.KERNEL_BASE + 0x40_0000
    requires BootTables(mem, b, t, First(kernelStart), Last(kernelEnd))
    ensures r.Some? ==> r.value.Valid() && r.value.heap.live == {} && r.value.mmio.windows == []
    ensures r.Some? ==> fresh(r.value) && fresh(r.value.Objects())
    ensures r.Some? ==> MapsImage(r.value.heap.space.mem, r.value.heap.space.cr3, b, Last(kernelEnd) + 1)
    ensures r.Some? && First(kernelStart) <= base <= Last(kernelEnd) && BootRegion(base, pages).Tracks(Last(kernelEnd)) ==>
              r.value.heap.space.cr3 == Last(kernelEnd)
  {
    hide TablesOk, BootTables, MapsImage, KernelReady, R.FreePages, R.Ok, BootRegion;
    var s := BootPaging(base, pages, First(kernelStart), Last(kernelEnd), mem, b, t);
    if s.None? {
      return None;
    }
    HeapFits(s.value.pages, kernelEnd);
    var heap := new HeapState(s.value, kernelEnd);
    var mmio := new MmioWindows(s.value);
    var kernel := new KernelSpace(heap, mmio);
    r := Some(kernel);
  }

  /** Any requests after boot: what `KernelMemory.Run` promises holds from the boot tables on. */
  method BootAndRun(base: nat, pages: nat, kernelStart: nat, kernelEnd: nat, mem: Memory, b: nat, t: nat,
                    requests: seq<Request>)
    returns (r: Option<KernelSpace>, held: seq<nat>)
    requires base + pages <= PAGE_LIMIT
    requires PagingBoot.KERNEL_BASE <= kernelStart <= kernelEnd <= PagingBoot.KERNEL_BASE + 0x40_0000
    requires BootTables(mem, b, t, First(kernelStart), Last(kernelEnd))
    ensures r.Some? ==> fresh(r.value) && r.value.Valid() && Holding(held, r.value.heap.live)
  {
    hide KernelSpace.Valid, Holding, BootTables, MapsImage, BootRegion;
    held := [];
    r := BootMemory(base, pages, kernelStart, kernelEnd, mem, b, t);
    if r.Some? {
      held := Run(r.value, requests);
    }
  }

  /** No page of the image but the partial last one is free after the reservation. */
  lemma ImageTaken(base: nat, pages: nat, vs: seq<Region>, min: nat, max: nat)
    requires Reserved([BootRegion(base, pages)], vs, min, max)
    ensures forall p :: min <= p < max ==> p !in FreePages(vs)
  {
    forall p | min <= p < max ensures p !in FreePages(vs) {
      PageRuns.ClearFree(vs, p);
    }
  }

  /** The first page that is handed out: below the end of the image everything is taken. */
  lemma TailIsFirst(base: nat, pages: nat, vs: seq<Region>, min: nat, max: nat, page: nat)
    requires base + pages <= PAGE_LIMIT && Reserved([BootRegion(base, pages)], vs, min, max)
    requires exists region :: NextFree(vs, 0, region, page)
    ensures min <= base <= max && BootRegion(base, pages).Tracks(max) ==> page == max
  {
    hide Marked, SetsWithin;
    var vs0 := [BootRegion(base, pages)];
    if min <= base <= max && BootRegion(base, pages).Tracks(max) {
      var region: nat :| NextFree(vs, 0, region, page);
      PageRuns.FreeOutside(vs0, vs, min, max, max);
      ClearRegion(base, pages, max);
      assert vs0[0].Tracks(max);
      PageRuns.TrackedClear(vs0, max);
      if min <= page < max {
        PageRuns.ClearFree(vs, page);
      }
      assert IsFree(vs, max) && FreeIn(vs[0], max);
    }
  }

  /** Whatever is allocated after boot, no page of the image is handed out exactly when the image ends on a
      page boundary, or its last page is not one that the region can hand out. */
  lemma BootImageSafeIff(base: nat, pages: nat, vs: seq<Region>, kernelStart: nat, kernelEnd: nat)
    requires base + pages <= PAGE_LIMIT && PagingBoot.KERNEL_BASE <= kernelStart < kernelEnd
    requires Reserved([BootRegion(base, pages)], vs, First(kernelStart), Last(kernelEnd))
    ensures PageRuns.ImageSafe(vs, kernelStart - PagingBoot.KERNEL_BASE, kernelEnd - PagingBoot.KERNEL_BASE)
            <==> (kernelEnd % PAGE_SIZE == 0 || !BootRegion(base, pages).Tracks(Last(kernelEnd)))
  {
    hide SetsWithin, Marked, IsFree, PageRuns.ImageSafe;
    var vs0, last := [BootRegion(base, pages)], Last(kernelEnd);
    PageRuns.ImageSafeIff(vs0, vs, kernelStart - PagingBoot.KERNEL_BASE, kernelEnd - PagingBoot.KERNEL_BASE);
    PageRuns.TrackedClear(vs0, last);
    if BootRegion(base, pages).Tracks(last) {
      ClearRegion(base, pages, last);
      assert vs0[0].Tracks(last);
    }
    assert (kernelEnd - PagingBoot.KERNEL_BASE) % PAGE_SIZE == kernelEnd % PAGE_SIZE;
  }

  /** Right after the set-up every bit of the region is clear. */
  lemma ClearRegion(base: nat, pages: nat, p: nat)
    requires base + pages <= PAGE_LIMIT && BootRegion(base, pages).Contains(p)
    ensures Ok([BootRegion(base, pages)]) && Marked([BootRegion(base, pages)], p, false)
  {
    var vs := [BootRegion(base, pages)];
    ClearBits(p - base);
    assert vs[0].Contains(p);
  }

  lemma HeapFits(a: Allocator, kernelEnd: nat)
    requires a.Valid() && |a.regions| == 1 && kernelEnd <= KernelHeap.KERNEL_BASE + 0x40_0000
    ensures kernelEnd + PAGE_SIZE + PAGE_SIZE * |a.Free()| <= HEAP_LIMIT
  {
    BootHeapFits(a.Views(), kernelEnd);
  }
}
