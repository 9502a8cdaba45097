/** Windows of device memory, handed out by a bump pointer between two fixed kernel addresses. */
module Mmio {
  import opened Options
  import opened PageAllocator
  import opened PageTables
  import opened AddressSpaces
  import R = Regions

  const MMIO_START: nat := 0xE000_0000
  const MMIO_LIMIT: nat := 0xFF80_0000

  /** `pages` pages from `base` on, mapped to consecutive physical pages from `phys` on. */
  datatype Window = Window(base: nat, pages: nat, phys: nat) {
    function End(): nat { base + PAGE_SIZE * pages }
  }

  /** Device memory is mapped to be written. */
  function WindowMapping(w: Window, v: nat): Option<Mapping>
    requires w.base <= v
  {
    Some(Mapping(FrameOf((w.phys + (v - w.base)) % SPACE), true))
  }

  ghost predicate WindowOk(mem: Memory, cr3: nat, w: Window) {
    forall v: nat :: w.base <= v < w.End() ==> Walk(mem, cr3, v) == WindowMapping(w, v)
  }

  ghost predicate Aligned(w: Window) {
    w.base % PAGE_SIZE == 0 && w.phys % PAGE_SIZE == 0
  }

  /** Page-granular windows, in address order and disjoint, between the start and `ptr`. */
  ghost predicate Laid(windows: seq<Window>, ptr: nat) {
    && (forall i :: 0 <= i < |windows| ==> Aligned(windows[i]) && MMIO_START <= windows[i].base && windows[i].End() <= ptr)
    && forall i, j :: 0 <= i < j < |windows| ==> windows[i].End() <= windows[j].base
  }

  /** Mapping a page that lies in no part of a window keeps the window. */
  lemma WindowSurvives(mem: Memory, mem': Memory, cr3: nat, v: nat, to: Mapping, w: Window)
    requires WindowOk(mem, cr3, w) && Aligned(w) && w.End() <= MMIO_LIMIT
    requires MapsPage(mem, mem', cr3, v, to) && HasTable(mem, cr3, PdIndex(v))
    requires !(w.base <= v < w.End())
    ensures WindowOk(mem', cr3, w)
  {
    hide Walk, HasTable;
    forall u: nat | w.base <= u < w.End()
      ensures Walk(mem', cr3, u) == WindowMapping(w, u)
    {
      SamePage(w, u, v);
    }
  }

  /** A page belongs to a window whole or not at all. */
  lemma SamePage(w: Window, u: nat, v: nat)
    requires Aligned(w) && w.base <= u < w.End() && !(w.base <= v < w.End())
    ensures u / PAGE_SIZE != v / PAGE_SIZE
  {
    var b := w.base / PAGE_SIZE;
    assert w.base == b * PAGE_SIZE;
    assert w.End() == (b + w.pages) * PAGE_SIZE;
  }

  // ----- the 32-bit arithmetic of the size check

  function RoundUp(n: nat): nat {
    if n % PAGE_SIZE != 0 then n + (PAGE_SIZE - n % PAGE_SIZE) else n
  }

  /** The bytes a mapping needs: from the start of its first page to the end of its last. */
  function Span(phys: nat, size: nat): nat {
    RoundUp(size + phys % PAGE_SIZE)
  }

  /** What the code computes for it in a 32-bit `size_t`. */
  function Span32(phys: nat, size: nat): nat {
    var size1 := (size + phys % PAGE_SIZE) % SPACE;
    (if size1 % PAGE_SIZE != 0 then size1 + (PAGE_SIZE - size1 % PAGE_SIZE) else size1) % SPACE
  }

  predicate Accepts(ptr: nat, phys: nat, size: nat) {
    (ptr + Span32(phys, size)) % SPACE <= MMIO_LIMIT
  }

  /** Rounding up to whole pages. */
  lemma RoundsToPages(n: nat)
    ensures RoundUp(n) % PAGE_SIZE == 0 && n <= RoundUp(n) < n + PAGE_SIZE
  {
    var q, r := n / PAGE_SIZE, n % PAGE_SIZE;
    assert n == PAGE_SIZE * q + r;
    PageTimes(q);
    PageTimes(q + 1);
  }

  lemma PageTimes(q: nat)
    ensures (PAGE_SIZE * q) % PAGE_SIZE == 0
  {
  }

  /** Page offsets survive the wrap at 2^32, which is a whole number of pages. */
  lemma WrapKeepsOffset(n: nat)
    ensures n % SPACE % PAGE_SIZE == n % PAGE_SIZE
  {
    var q, m := n / SPACE, n % SPACE;
    var p, r := m / PAGE_SIZE, m % PAGE_SIZE;
    assert n == PAGE_SIZE * (0x10_0000 * q + p) + r;
    OffsetOf(0x10_0000 * q + p, r);
  }

  lemma OffsetOf(p: nat, r: nat)
    requires r < PAGE_SIZE
    ensures (PAGE_SIZE * p + r) % PAGE_SIZE == r
  {
  }

  lemma WrapSum(q: nat, m: nat)
    ensures (SPACE * q + m) % SPACE == m % SPACE
  {
    var k := m / SPACE;
    assert SPACE * q + m == SPACE * (q + k) + m % SPACE;
  }

  lemma SpanWraps(phys: nat, size: nat)
    ensures Span32(phys, size) == Span(phys, size) % SPACE
  {
    var n := size + phys % PAGE_SIZE;
    var q := n / SPACE;
    WrapKeepsOffset(n);
    WrapSum(q, RoundUp(n % SPACE));
    assert n == SPACE * q + n % SPACE;
    assert Span(phys, size) == SPACE * q + RoundUp(n % SPACE);
  }

  /** The check of `mmio_map` admits exactly the windows that end below the limit, unless the end of the
      window lies behind the 32-bit address space and wraps to an address below the limit. */
  lemma AcceptsIff(ptr: nat, phys: nat, size: nat)
    requires MMIO_START <= ptr <= MMIO_LIMIT && size < SPACE
    ensures (Accepts(ptr, phys, size) <==> ptr + Span(phys, size) <= MMIO_LIMIT)
            <==> (ptr + Span(phys, size) < SPACE || ptr + Span(phys, size) - SPACE > MMIO_LIMIT)
  {
    hide RoundUp, Span32;
    SpanWraps(phys, size);
    SpanCovers(phys, size);
    hide Span;
    var s := Span(phys, size);
    WrapSum(s / SPACE, ptr + s % SPACE);
    assert SPACE * (s / SPACE) + (ptr + s % SPACE) == ptr + s;
  }

  /** A request that is admitted wrongly: for 512 MB after boot the check compares the end 0. */
  lemma AcceptsFails()
    ensures Accepts(MMIO_START, 0, 0x2000_0000) && MMIO_START + Span(0, 0x2000_0000) > MMIO_LIMIT
  {
  }

  /** After boot there is room for 504 MB of devices, and for no byte more. */
  lemma RoomAfterBoot(size: nat)
    requires size <= 0x1FFF_F000
    ensures Accepts(MMIO_START, 0, size) <==> size <= 504 * 0x10_0000
    ensures MMIO_START == 0xE000_0000
  {
    SpanWraps(0, size);
    RoundsToPages(size);
    Upward(size);
  }

  lemma Upward(size: nat)
    ensures RoundUp(size) <= 504 * 0x10_0000 <==> size <= 504 * 0x10_0000
  {
  }

  class MmioWindows {
    const space: AddressSpace
    var ptr: nat
    ghost var windows: seq<Window>

    ghost predicate Valid()
      reads this, space, space.pages, space.pages.Bitmaps()
    {
      && space.Valid() && KernelReady(space.mem, space.cr3)
      && MMIO_START <= ptr <= MMIO_LIMIT && ptr % PAGE_SIZE == 0
      && Laid(windows, ptr)
      && forall i :: 0 <= i < |windows| ==> WindowOk(space.mem, space.cr3, windows[i])
    }

    /** `mmio_init` */
    constructor (space: AddressSpace)
      requires space.Valid() && KernelReady(space.mem, space.cr3)
      ensures Valid() && this.space == space && ptr == MMIO_START && windows == []
    {
      this.space := space;
      ptr := MMIO_START;
      windows := [];
    }

    /** `mmio_map`, for every request that does not run over the end of the address space.  What a request
        gets is the window of its 32-bit span, which is all of it unless the span itself wraps. */
    method Map(physAddr: nat, size: nat) returns (r: Option<nat>)
      requires Valid() && size < SPACE
      requires ptr + Span32(physAddr, size) < SPACE
      modifies this, space`mem, space.pages`lastFree, space.pages.Bitmaps()
      ensures Valid() && space.pages.Views() == old(space.pages.Views())
      ensures KeepsOutside(old(space.mem), space.mem, space.cr3, old(ptr), ptr) && space.mem.Keys == old(space.mem).Keys
      ensures r.None? <==> old(ptr) + Span32(physAddr, size) > MMIO_LIMIT
      ensures r.None? ==> space.mem == old(space.mem) && windows == old(windows) && ptr == old(ptr)
      ensures r.Some? ==> ptr == old(ptr) + Span32(physAddr, size)
                          && windows == old(windows) + [NewWindow(old(ptr), physAddr, Span32(physAddr, size))]
      ensures r.Some? ==> forall k: nat :: physAddr % PAGE_SIZE + k < Span32(physAddr, size) ==>
                            MapsByte(space.mem, space.cr3, r.value, physAddr, k)
      ensures r.Some? && Span(physAddr, size) < SPACE ==>
                && (forall k: nat :: k < size ==> MapsByte(space.mem, space.cr3, r.value, physAddr, k))
                && ptr - old(ptr) < size + physAddr % PAGE_SIZE + PAGE_SIZE
    {
      hide R.OnlyMarks, R.FreePages, R.Ok, R.WellFormed, R.Sorted, TablesOk, Walk, WindowOk, Laid, MapsByte,
          KernelReady, Span, Span32, NewWindow, R.NextFree, KeepsOutside;
      SpanWraps(physAddr, size);
      SpanCovers(physAddr, size);
      var offset, address, span := WindowSpan(physAddr, size);
      var numPages := span / PAGE_SIZE;
      NothingChanged(space.mem, space.cr3, ptr);
      if (ptr + span) % SPACE > MMIO_LIMIT {
        return None;
      }
      var virtAddr := ptr;
      ghost var w := NewWindow(virtAddr, physAddr, span);
      SpanAligned(physAddr, size);
      NewWindowFits(virtAddr, physAddr, span);
      NewWindowIs(virtAddr, physAddr, span);
      MapWindow(w, address, numPages);
      ptr := ptr + span;
      LaidGrows(windows, virtAddr, w, ptr);
      windows := windows + [w];
      var result := virtAddr + offset;
      WindowTranslates(space.mem, space.cr3, virtAddr, physAddr, span, result);
      r := Some(result);
      assert r.value == result;
    }

    /** The rounding at the start of `mmio_map`, in 32 bits. */
    method WindowSpan(physAddr: nat, size: nat) returns (offset: nat, address: nat, span: nat)
      ensures offset == physAddr % PAGE_SIZE && address == physAddr - offset && span == Span32(physAddr, size)
    {
      offset := physAddr % PAGE_SIZE;
      span := (size + offset) % SPACE;
      address := physAddr - offset;
      if span % PAGE_SIZE != 0 {
        span := (span + (PAGE_SIZE - span % PAGE_SIZE)) % SPACE;
      }
    }

    /** The loop of `mmio_map`. */
    method MapWindow(ghost w: Window, address: nat, numPages: nat)
      requires Valid() && w == Window(ptr, numPages, address) && Aligned(w) && w.End() <= MMIO_LIMIT
      modifies space`mem, space.pages`lastFree, space.pages.Bitmaps()
      ensures Valid() && space.pages.Views() == old(space.pages.Views())
      ensures WindowOk(space.mem, space.cr3, w)
      ensures KeepsOutside(old(space.mem), space.mem, space.cr3, ptr, w.End()) && space.mem.Keys == old(space.mem).Keys
    {
      hide R.OnlyMarks, R.FreePages, R.Ok, R.WellFormed, R.Sorted, TablesOk, Walk, WindowOk, Laid, MapsPage,
          SameSlots, KernelReady, R.NextFree, KeepsOutside;
      NothingChanged(space.mem, space.cr3, ptr);
      WindowEmpty(space.mem, space.cr3, ptr, address);
      var i := 0;
      while i < numPages
        invariant 0 <= i <= numPages && space.Valid() && KernelReady(space.mem, space.cr3)
        invariant space.pages.Views() == old(space.pages.Views())
        invariant forall j :: 0 <= j < |windows| ==> WindowOk(space.mem, space.cr3, windows[j])
        invariant WindowOk(space.mem, space.cr3, Window(ptr, i, address))
        invariant KeepsOutside(old(space.mem), space.mem, space.cr3, ptr, ptr + i * PAGE_SIZE)
        invariant space.mem.Keys == old(space.mem).Keys
      {
        var physOffs := (address + i * PAGE_SIZE) % SPACE;
        var virtOffs := ptr + i * PAGE_SIZE;
        ghost var before, to := space.mem, Mapping(FrameOf(physOffs), true);
        Slots(virtOffs);
        ReadyHas(before, space.cr3, PdIndex(virtOffs));
        PageMultiple(address, ptr, i);
        space.MapPage(physOffs, virtOffs, 3);
        StaysReady(before, space.mem, space.cr3, PdIndex(virtOffs));
        forall j | 0 <= j < |windows| ensures WindowOk(space.mem, space.cr3, windows[j]) {
          LaidBelow(windows, ptr, j);
          WindowSurvives(before, space.mem, space.cr3, virtOffs, to, windows[j]);
        }
        WindowGrows(before, space.mem, space.cr3, Window(ptr, i, address));
        OutsideGrows(old(space.mem), before, space.mem, space.cr3, ptr, virtOffs, to);
        i := i + 1;
      }
    }
  }

  function NewWindow(ptr: nat, phys: nat, span: nat): Window {
    Window(ptr, span / PAGE_SIZE, phys - phys % PAGE_SIZE)
  }

  lemma SpanAligned(phys: nat, size: nat)
    ensures Span(phys, size) % PAGE_SIZE == 0 && Span32(phys, size) % PAGE_SIZE == 0
  {
    hide RoundUp, Span32;
    SpanWraps(phys, size);
    RoundsToPages(size + phys % PAGE_SIZE);
    WrapKeepsOffset(Span(phys, size));
  }

  lemma NewWindowFits(ptr: nat, phys: nat, span: nat)
    requires ptr % PAGE_SIZE == 0 && span % PAGE_SIZE == 0
    ensures Aligned(NewWindow(ptr, phys, span)) && NewWindow(ptr, phys, span).End() == ptr + span
    ensures (ptr + span) % PAGE_SIZE == 0
  {
  }

  lemma NewWindowIs(ptr: nat, phys: nat, span: nat)
    ensures NewWindow(ptr, phys, span) == Window(ptr, span / PAGE_SIZE, phys - phys % PAGE_SIZE)
  {
  }

  lemma WindowEmpty(mem: Memory, cr3: nat, ptr: nat, address: nat)
    ensures WindowOk(mem, cr3, Window(ptr, 0, address))
  {
  }

  lemma Slots(v: nat)
    requires MMIO_START <= v < WINDOW
    ensures KERNEL_SLOT <= PdIndex(v) < SELF
  {
  }

  lemma ReadyHas(mem: Memory, cr3: nat, i: nat)
    requires KernelReady(mem, cr3) && KERNEL_SLOT <= i < ENTRIES
    ensures HasTable(mem, cr3, i)
  {
  }

  lemma PageMultiple(address: nat, ptr: nat, i: nat)
    requires address % PAGE_SIZE == 0 && ptr % PAGE_SIZE == 0
    ensures (address + i * PAGE_SIZE) % SPACE % PAGE_SIZE == 0
    ensures (ptr + i * PAGE_SIZE) % PAGE_SIZE == 0
  {
    var a := address / PAGE_SIZE;
    assert address + i * PAGE_SIZE == (a + i) * 4096;
    var b := ptr / PAGE_SIZE;
    assert ptr + i * PAGE_SIZE == (b + i) * 4096;
  }

  lemma LaidBelow(windows: seq<Window>, ptr: nat, j: nat)
    requires Laid(windows, ptr) && j < |windows|
    ensures Aligned(windows[j]) && windows[j].End() <= ptr
  {
  }

  lemma LaidGrows(windows: seq<Window>, ptr: nat, w: Window, end: nat)
    requires Laid(windows, ptr) && MMIO_START <= ptr && w.base == ptr && Aligned(w) && w.End() == end
    ensures Laid(windows + [w], end)
  {
  }

  /** One more page at the end of a window. */
  lemma WindowGrows(mem: Memory, mem': Memory, cr3: nat, w: Window)
    requires WindowOk(mem, cr3, w) && Aligned(w) && w.End() + PAGE_SIZE <= MMIO_LIMIT
    requires HasTable(mem, cr3, PdIndex(w.End()))
    requires MapsPage(mem, mem', cr3, w.End(), WindowMapping(w, w.End()).value)
    ensures WindowOk(mem', cr3, w.(pages := w.pages + 1))
  {
    hide Walk, HasTable;
    forall u: nat | w.base <= u < w.End() + PAGE_SIZE
      ensures Walk(mem', cr3, u) == WindowMapping(w, u)
    {
      var b := w.base / PAGE_SIZE;
      assert w.End() == (b + w.pages) * 4096;
      if u < w.End() {
        SamePage(w, u, w.End());
      } else {
        var k := u - w.End();
        assert u / PAGE_SIZE == w.End() / PAGE_SIZE;
        var p := w.phys / PAGE_SIZE;
        FrameInPage(p + w.pages, k);
        assert w.phys + (u - w.base) == (p + w.pages) * 4096 + k;
        assert w.phys + PAGE_SIZE * w.pages == (p + w.pages) * 4096;
      }
    }
  }

  lemma WrapSmall(q: nat, x: nat)
    requires x < SPACE
    ensures (q * SPACE + x) % SPACE == x
  {
  }

  lemma FrameInPage(page: nat, k: nat)
    requires k < PAGE_SIZE
    ensures FrameOf((page * 4096 + k) % SPACE) == FrameOf((page * 4096) % SPACE)
  {
    var q := page / 0x10_0000;
    var r := page % 0x10_0000;
    assert page * 4096 + k == q * SPACE + (r * 4096 + k);
    assert page * 4096 == q * SPACE + r * 4096;
    WrapSmall(q, r * 4096 + k);
    WrapSmall(q, r * 4096);
    FrameOfSum(r, k);
    FrameOfSum(r, 0);
  }

  ghost predicate MapsByte(mem: Memory, cr3: nat, base: nat, phys: nat, k: nat) {
    Translate(mem, cr3, base + k) == Some((phys + k) % SPACE) && MayStore(mem, cr3, base + k)
  }

  lemma SpanCovers(phys: nat, size: nat)
    ensures size + phys % PAGE_SIZE <= Span(phys, size) < size + phys % PAGE_SIZE + PAGE_SIZE
  {
  }

  /** Every byte of a new window, unaligned start included, is translated to its device address. */
  lemma WindowTranslates(mem: Memory, cr3: nat, ptr: nat, phys: nat, span: nat, r: nat)
    requires r == ptr + phys % PAGE_SIZE && span % PAGE_SIZE == 0
    requires ptr % PAGE_SIZE == 0 && WindowOk(mem, cr3, NewWindow(ptr, phys, span))
    ensures forall k: nat :: phys % PAGE_SIZE + k < span ==> MapsByte(mem, cr3, r, phys, k)
  {
    hide Walk;
    var w := NewWindow(ptr, phys, span);
    NewWindowFits(ptr, phys, span);
    var offset := phys % PAGE_SIZE;
    forall k: nat | offset + k < span ensures MapsByte(mem, cr3, r, phys, k) {
      var v := ptr + offset + k;
      assert v < w.End();
      assert w.phys + (v - w.base) == phys + k;
      OffsetInPage(ptr / PAGE_SIZE, w.phys / PAGE_SIZE, offset + k);
    }
  }

  lemma OffsetInPage(b: nat, p: nat, n: nat)
    ensures (b * 4096 + n) % PAGE_SIZE == n % PAGE_SIZE
    ensures FrameOf((p * 4096 + n) % SPACE) * PAGE_SIZE + n % PAGE_SIZE == (p * 4096 + n) % SPACE
  {
    var x := (p * 4096 + n) % SPACE;
    var q := (p * 4096 + n) / SPACE;
    assert p * 4096 + n == q * SPACE + x;
    assert x % PAGE_SIZE == n % PAGE_SIZE;
  }
}
