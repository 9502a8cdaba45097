/** The kernel's own page-table code: it edits the tables through their recursive mapping. */
module AddressSpaces {
  import opened Options
  import opened PageAllocator
  import opened PageTables
  import R = Regions

  /** The kernel half of the address space starts at this directory slot. */
  const KERNEL_SLOT: nat := 768

  /** Every directory slot of the kernel half has a table. */
  ghost predicate KernelReady(mem: Memory, cr3: nat) {
    forall i :: KERNEL_SLOT <= i < ENTRIES ==> HasTable(mem, cr3, i)
  }

  /** Addresses whose translation a new table for slot `pd` can change. */
  predicate Affected(w: nat, pd: nat) {
    PdIndex(w) == pd || (PdIndex(w) == SELF && PtIndex(w) == pd)
  }

  /** `mem'` maps the page of `v` to `to` and translates every other page as before, except the window
      page of a table that `mem` did not have. */
  ghost predicate MapsPage(mem: Memory, mem': Memory, cr3: nat, v: nat, to: Mapping) {
    forall w: nat :: w < SPACE ==>
      if w / PAGE_SIZE == v / PAGE_SIZE then Walk(mem', cr3, w) == Some(to)
      else if HasTable(mem, cr3, PdIndex(v)) || w / PAGE_SIZE != WINDOW / PAGE_SIZE + PdIndex(v)
      then Walk(mem', cr3, w) == Walk(mem, cr3, w)
      else true
  }

  /** Directory slots other than `pd` are as before. */
  ghost predicate SameSlots(mem: Memory, mem': Memory, cr3: nat, pd: nat) {
    forall i :: 0 <= i < ENTRIES && i != pd ==> Entry(mem', cr3, i) == Entry(mem, cr3, i)
  }

  /** `mem'` is `mem` with an empty table in the frame `page` for slot `pd`. */
  ghost predicate NewTable(mem: Memory, mem': Memory, cr3: nat, pd: nat, page: nat) {
    && TablesOk(mem', cr3) && HasTable(mem', cr3, pd) && TableOf(mem', cr3, pd) == page
    && SameSlots(mem, mem', cr3, pd)
    && mem'.Keys == mem.Keys + {page}
    && (forall w: nat :: w < SPACE && !Affected(w, pd) ==> Walk(mem', cr3, w) == Walk(mem, cr3, w))
    && (forall w: nat :: w < SPACE && PdIndex(w) == pd ==> Walk(mem', cr3, w) == None)
  }

  /** Everything below the window is translated as before. */
  ghost predicate KeepsLowPages(mem: Memory, mem': Memory, cr3: nat) {
    forall w: nat :: w < WINDOW ==> Walk(mem', cr3, w) == Walk(mem, cr3, w)
  }

  /** Only addresses of [lo, hi) may be translated otherwise than before. */
  ghost predicate KeepsOutside(mem: Memory, mem': Memory, cr3: nat, lo: nat, hi: nat) {
    forall w: nat :: w < SPACE && !(lo <= w < hi) ==> Walk(mem', cr3, w) == Walk(mem, cr3, w)
  }

  lemma NothingChanged(mem: Memory, cr3: nat, lo: nat)
    ensures KeepsOutside(mem, mem, cr3, lo, lo)
  {
    hide Walk;
  }

  lemma OutsideJoins(mem0: Memory, mem: Memory, mem': Memory, cr3: nat, lo: nat, mid: nat, hi: nat)
    requires KeepsOutside(mem0, mem, cr3, lo, mid) && KeepsOutside(mem, mem', cr3, mid, hi) && lo <= mid <= hi
    ensures KeepsOutside(mem0, mem', cr3, lo, hi)
  {
    hide Walk;
  }

  /** One more page at the end of the changed range. */
  lemma OutsideGrows(mem0: Memory, mem: Memory, mem': Memory, cr3: nat, lo: nat, v: nat, to: Mapping)
    requires KeepsOutside(mem0, mem, cr3, lo, v) && lo <= v && v % PAGE_SIZE == 0
    requires MapsPage(mem, mem', cr3, v, to) && HasTable(mem, cr3, PdIndex(v))
    ensures KeepsOutside(mem0, mem', cr3, lo, v + PAGE_SIZE)
  {
    hide Walk, HasTable;
    forall w: nat | w < SPACE && !(lo <= w < v + PAGE_SIZE) ensures Walk(mem', cr3, w) == Walk(mem0, cr3, w) {
      assert w / PAGE_SIZE != v / PAGE_SIZE;
    }
  }

  /** Slots that had a table have the same one. */
  ghost predicate KeepsTables(mem: Memory, mem': Memory, cr3: nat) {
    forall i :: 0 <= i < ENTRIES && HasTable(mem, cr3, i) ==> Entry(mem', cr3, i) == Entry(mem, cr3, i)
  }

  lemma AddFrame(mem: Memory, cr3: nat, frame: nat, contents: seq<nat>)
    requires TablesOk(mem, cr3) && frame !in mem && |contents| == ENTRIES
    ensures TablesOk(mem[frame := contents], cr3)
  {
    var mem' := mem[frame := contents];
    forall i | 0 <= i < SELF ensures SlotOk(mem', cr3, i) {
      assert SlotOk(mem, cr3, i);
    }
    forall i, j | 0 <= i < j < SELF && HasTable(mem', cr3, i) && HasTable(mem', cr3, j)
      ensures TableOf(mem', cr3, i) != TableOf(mem', cr3, j)
    {
      assert HasTable(mem, cr3, i) && HasTable(mem, cr3, j);
    }
  }

  lemma PageIndices(v: nat, w: nat)
    requires v < SPACE && w < SPACE
    ensures w / PAGE_SIZE == v / PAGE_SIZE <==> PdIndex(w) == PdIndex(v) && PtIndex(w) == PtIndex(v)
    ensures PdIndex(v) < ENTRIES && PtIndex(v) < ENTRIES
    ensures v < WINDOW <==> PdIndex(v) < SELF
  {
    Split(v);
    Split(w);
  }

  lemma Split(v: nat)
    ensures v / PAGE_SIZE == PdIndex(v) * ENTRIES + PtIndex(v)
  {
  }

  /** The table edit at the end of `mm_map_page`, seen from every address. */
  lemma EntryMapsPage(mem0: Memory, mem: Memory, cr3: nat, v: nat, x: nat)
    requires v < WINDOW && TablesOk(mem, cr3) && HasTable(mem, cr3, PdIndex(v))
    requires Present(x)
    requires if HasTable(mem0, cr3, PdIndex(v)) then mem0 == mem
             else exists page :: NewTable(mem0, mem, cr3, PdIndex(v), page)
    requires !HasTable(mem0, cr3, PdIndex(v)) ==>
               forall w: nat :: w < SPACE && PdIndex(w) == PdIndex(v) ==> Walk(mem0, cr3, w) == None
    ensures MapsPage(mem0, SetEntry(mem, TableOf(mem, cr3, PdIndex(v)), PtIndex(v), x), cr3, v,
                     Mapping(FrameOf(x), Writable(x)))
  {
    hide Walk, SetEntry, Entry, TablesOk, PdIndex, PtIndex;
    var to := Mapping(FrameOf(x), Writable(x));
    var mem' := SetEntry(mem, TableOf(mem, cr3, PdIndex(v)), PtIndex(v), x);
    forall w: nat | w < SPACE
      ensures if w / PAGE_SIZE == v / PAGE_SIZE then Walk(mem', cr3, w) == Some(to)
              else if HasTable(mem0, cr3, PdIndex(v)) || w / PAGE_SIZE != WINDOW / PAGE_SIZE + PdIndex(v)
              then Walk(mem', cr3, w) == Walk(mem0, cr3, w)
              else true
    {
      PageIndices(v, w);
      SetPteWalk(mem, cr3, PdIndex(v), PtIndex(v), x, w);
      WindowPage(w, PdIndex(v));
    }
  }

  lemma WindowPage(w: nat, pd: nat)
    requires w < SPACE && pd < ENTRIES
    ensures PdIndex(w) == SELF && PtIndex(w) == pd <==> w / PAGE_SIZE == WINDOW / PAGE_SIZE + pd
  {
    Split(w);
  }

  lemma SecondBitKept(flags: nat)
    ensures flags / 2 % 2 == flags % PAGE_SIZE / 2 % 2
  {
    var q, r := flags / PAGE_SIZE, flags % PAGE_SIZE;
    assert flags == 2 * (2048 * q + r / 2) + r % 2;
    SecondBit(1024 * q, r / 2);
  }

  /** `(flags & 0xFFF) | 0x01` */
  function EntryFlags(flags: nat): (low: nat)
    ensures low < PAGE_SIZE && low % 2 == 1 && low / 2 == flags % PAGE_SIZE / 2
    ensures Writable(low) <==> Writable(flags)
  {
    SecondBitKept(flags);
    var low := flags % PAGE_SIZE;
    if low % 2 == 1 then low else low + 1
  }

  class AddressSpace {
    var mem: Memory
    var cr3: nat
    const pages: Allocator

    ghost predicate Valid()
      reads this, pages, pages.Bitmaps()
    {
      && pages.Valid()
      && TablesOk(mem, cr3)
      && forall f :: f in mem ==> f !in pages.Free()
    }

    constructor (pages: Allocator, mem: Memory, cr3: nat)
      ensures this.pages == pages && this.mem == mem && this.cr3 == cr3
    {
      this.pages, this.mem, this.cr3 := pages, mem, cr3;
    }

    /** A load or store by the kernel at a virtual address, as the MMU performs it. */
    method Load(v: nat) returns (x: nat)
      requires Walk(mem, cr3, v).Some?
      ensures x == Entry(mem, Walk(mem, cr3, v).value.frame, v % PAGE_SIZE / 4)
    {
      var frame := Walk(mem, cr3, v).value.frame;
      x := Entry(mem, frame, v % PAGE_SIZE / 4);
    }

    method Store(v: nat, x: nat)
      requires MayStore(mem, cr3, v)
      modifies this`mem
      ensures mem == Stored(old(mem), cr3, v, x)
    {
      var frame := Walk(mem, cr3, v).value.frame;
      mem := SetEntry(mem, frame, v % PAGE_SIZE / 4, x);
    }

    /** What a frame held before it became a table; callers know only its size. */
    method OldContents(frame: nat) returns (words: seq<nat>)
      ensures |words| == ENTRIES
    {
      words := seq(ENTRIES, _ => 0);
    }

    /** `memset` of a page table to zero, through its window page. */
    method ClearTable(pd: nat)
      requires TablesOk(mem, cr3) && pd < SELF && HasTable(mem, cr3, pd)
      modifies this`mem
      ensures TablesOk(mem, cr3) && mem.Keys == old(mem).Keys
      ensures forall i :: 0 <= i < ENTRIES ==> Entry(mem, cr3, i) == Entry(old(mem), cr3, i)
      ensures forall w: nat :: w < SPACE && PdIndex(w) != pd ==> Walk(mem, cr3, w) == Walk(old(mem), cr3, w)
      ensures forall w: nat :: w < SPACE && PdIndex(w) == pd ==> Walk(mem, cr3, w) == None
    {
      hide TablesOk, Walk, Entry, SetEntry;
      var i := 0;
      while i < ENTRIES
        invariant 0 <= i <= ENTRIES && TablesOk(mem, cr3) && mem.Keys == old(mem).Keys
        invariant forall j :: 0 <= j < ENTRIES ==> Entry(mem, cr3, j) == Entry(old(mem), cr3, j)
        invariant forall w: nat :: w < SPACE && PdIndex(w) != pd ==> Walk(mem, cr3, w) == Walk(old(mem), cr3, w)
        invariant forall w: nat :: w < SPACE && PdIndex(w) == pd && PtIndex(w) < i ==> Walk(mem, cr3, w) == None
      {
        ghost var before := mem;
        assert HasTable(mem, cr3, pd);
        TableWindow(mem, cr3, pd, i);
        Store(WINDOW + PAGE_SIZE * pd + 4 * i, 0);
        SetPte(before, cr3, pd, i, 0);
        SetKeys(before, TableOf(before, cr3, pd), i, 0);
        forall w: nat | w < SPACE
          ensures Walk(mem, cr3, w) == if PdIndex(w) == pd && PtIndex(w) == i then None else Walk(before, cr3, w)
        {
          SetPteWalk(before, cr3, pd, i, 0, w);
        }
        i := i + 1;
      }
    }

    lemma SetKeys(m: Memory, frame: nat, i: nat, x: nat)
      ensures SetEntry(m, frame, i, x).Keys == m.Keys
    {
    }

    /** Enter an allocated page into an empty directory slot as an empty table. */
    method InstallTable(pd: nat, page: nat)
      requires TablesOk(mem, cr3) && pd < SELF && !HasTable(mem, cr3, pd) && page !in mem
      modifies this`mem
      ensures NewTable(old(mem), mem, cr3, pd, page)
    {
      hide TablesOk, Walk, Entry, SetEntry;
      var contents := OldContents(page);
      ghost var before := mem;
      AddFrame(mem, cr3, page, contents);
      mem := mem[page := contents];
      DirectoryWindow(mem, cr3, pd);
      Store(DIRECTORY + 4 * pd, page * PAGE_SIZE + 3);
      assert mem == Installed(before, cr3, pd, page, contents);
      SetKeys(before[page := contents], cr3, pd, page * PAGE_SIZE + 3);
      Install(before, cr3, pd, page, contents);
      forall w: nat | w < SPACE && !Affected(w, pd) ensures Walk(mem, cr3, w) == Walk(before, cr3, w) {
        InstallWalk(before, cr3, pd, page, contents, w);
      }
      ClearTable(pd);
    }

    /** `mm_get_physaddr` of an address below a table: what the MMU translates a mapped address to, and
        for an address that is not mapped what the frame field of its entry says. */
    method GetPhysAddr(vaddr: nat) returns (paddr: nat)
      requires TablesOk(mem, cr3) && vaddr < SPACE && HasTable(mem, cr3, PdIndex(vaddr))
      ensures paddr == FrameOf(Entry(mem, TableOf(mem, cr3, PdIndex(vaddr)), PtIndex(vaddr))) * PAGE_SIZE + vaddr % PAGE_SIZE
      ensures Walk(mem, cr3, vaddr).Some? ==> Translate(mem, cr3, vaddr) == Some(paddr)
    {
      hide TablesOk;
      var pdindex, ptindex := PdIndex(vaddr), PtIndex(vaddr);
      PageIndices(vaddr, vaddr);
      TableWindow(mem, cr3, pdindex, ptindex);
      var entry := Load(WINDOW + PAGE_SIZE * pdindex + 4 * ptindex);
      paddr := entry / PAGE_SIZE * PAGE_SIZE + vaddr % PAGE_SIZE;
    }

    /** The part of `mm_map_page` that creates a missing table.  Where no page is free the source goes on
        with a page number that was never set. */
    method EnsureSlot(pdindex: nat)
      requires Valid() && pdindex < SELF
      requires HasTable(mem, cr3, pdindex) || pages.Free() != {}
      modifies this`mem, pages`lastFree, pages.Bitmaps()
      ensures Valid() && HasTable(mem, cr3, pdindex)
      ensures old(HasTable(mem, cr3, pdindex)) ==> mem == old(mem) && pages.Views() == old(pages.Views())
      ensures !old(HasTable(mem, cr3, pdindex)) ==>
                && NewTable(old(mem), mem, cr3, pdindex, TableOf(mem, cr3, pdindex))
                && TableOf(mem, cr3, pdindex) in old(pages.Free())
                && pages.Free() == old(pages.Free()) - {TableOf(mem, cr3, pdindex)}
    {
      hide TablesOk, Walk, Entry, R.OnlyMarks, R.FreePages, R.Ok, R.WellFormed, R.Sorted, R.NextFree;
      NotABitmap();
      DirectoryWindow(mem, cr3, pdindex);
      var pde := Load(DIRECTORY + 4 * pdindex);
      EmptySlot(mem, cr3, pdindex);
      if pde == 0 {
        var page := pages.AllocPage();
        InstallTable(pdindex, page.value);
      }
    }

    /** `mm_map_page`.  A failing allocation of a table is not handled by the source, so the slot must
        have a table or a page must be free. */
    method MapPage(paddr: nat, vaddr: nat, flags: nat)
      requires Valid() && paddr % PAGE_SIZE == 0 && vaddr < WINDOW
      requires HasTable(mem, cr3, PdIndex(vaddr)) || pages.Free() != {}
      modifies this`mem, pages`lastFree, pages.Bitmaps()
      ensures Valid()
      ensures MapsPage(old(mem), mem, cr3, vaddr, Mapping(FrameOf(paddr), flags / 2 % 2 == 1))
      ensures SameSlots(old(mem), mem, cr3, PdIndex(vaddr)) && HasTable(mem, cr3, PdIndex(vaddr))
      ensures var x := Entry(mem, TableOf(mem, cr3, PdIndex(vaddr)), PtIndex(vaddr));
              x % 2 == 1 && FrameOf(x) == FrameOf(paddr) && x % PAGE_SIZE / 2 == flags % PAGE_SIZE / 2
      ensures old(HasTable(mem, cr3, PdIndex(vaddr))) ==>
                pages.Views() == old(pages.Views()) && mem.Keys == old(mem).Keys
                && Entry(mem, cr3, PdIndex(vaddr)) == Entry(old(mem), cr3, PdIndex(vaddr))
      ensures !old(HasTable(mem, cr3, PdIndex(vaddr))) ==>
                TableOf(mem, cr3, PdIndex(vaddr)) in old(pages.Free())
                && pages.Free() == old(pages.Free()) - {TableOf(mem, cr3, PdIndex(vaddr))}
    {
      hide TablesOk, Walk, Entry, SetEntry, MapsPage, R.OnlyMarks, R.FreePages, R.Ok, R.WellFormed, R.Sorted, R.NextFree;
      NotABitmap();
      var pdindex, ptindex := PdIndex(vaddr), PtIndex(vaddr);
      PageIndices(vaddr, vaddr);
      ghost var mem0 := mem;
      EmptySlot(mem, cr3, pdindex);
      EnsureSlot(pdindex);
      ghost var mem1 := mem;
      var low := EntryFlags(flags);
      var x := paddr + low;
      MakeEntry(paddr, low);
      assert Writable(x) <==> Writable(flags);
      TableWindow(mem, cr3, pdindex, ptindex);
      Store(WINDOW + PAGE_SIZE * pdindex + 4 * ptindex, x);
      SetPte(mem1, cr3, pdindex, ptindex, x);
      SetKeys(mem1, TableOf(mem1, cr3, pdindex), ptindex, x);
      EntryOfSet(mem1, TableOf(mem1, cr3, pdindex), ptindex, x, TableOf(mem1, cr3, pdindex), ptindex);
      EntryMapsPage(mem0, mem1, cr3, vaddr, x);
    }

    /** Changing this object changes no bitmap. */
    lemma NotABitmap()
      ensures this !in pages.Bitmaps()
    {
    }

    lemma MakeEntry(paddr: nat, low: nat)
      requires paddr % PAGE_SIZE == 0 && low < PAGE_SIZE && low % 2 == 1
      ensures Present(paddr + low) && FrameOf(paddr + low) == FrameOf(paddr)
      ensures (paddr + low) % PAGE_SIZE == low && (Writable(paddr + low) <==> Writable(low))
    {
      var p, h := FrameOf(paddr), low / 2;
      assert paddr == PAGE_SIZE * p && low == 2 * h + 1;
      FrameOfSum(p, low);
      LowBits(2048 * p + h);
      assert paddr + low == 2 * (2048 * p + h) + 1;
      SecondBit(1024 * p, h);
    }

    lemma EmptySlot(m: Memory, c: nat, pd: nat)
      requires TablesOk(m, c) && pd < SELF
      ensures Entry(m, c, pd) == 0 <==> !HasTable(m, c, pd)
      ensures !HasTable(m, c, pd) ==> forall w: nat :: w < SPACE && PdIndex(w) == pd ==> Walk(m, c, w) == None
    {
      assert SlotOk(m, c, pd);
    }

    /** `paging_init_kernel_space`: a table for every slot of the kernel half; `ok` is false where the
        source panics. */
    method InitKernelSpace() returns (ok: bool)
      requires Valid()
      modifies this`mem, pages`lastFree, pages.Bitmaps()
      ensures Valid()
      ensures if ok then KernelReady(mem, cr3) else pages.Free() == {}
      ensures KeepsLowPages(old(mem), mem, cr3) && KeepsTables(old(mem), mem, cr3)
      ensures ok ==> forall i :: KERNEL_SLOT <= i < ENTRIES && !HasTable(old(mem), cr3, i) ==>
                TableOf(mem, cr3, i) in old(pages.Free())
    {
      hide TablesOk, Walk, Entry, R.OnlyMarks, R.FreePages, R.Ok, R.WellFormed, R.Sorted, R.NextFree;
      var start := KERNEL_SLOT;
      while start < ENTRIES
        invariant KERNEL_SLOT <= start <= ENTRIES && Valid() && pages.Free() <= old(pages.Free())
        invariant KeepsLowPages(old(mem), mem, cr3) && KeepsTables(old(mem), mem, cr3)
        invariant forall i :: KERNEL_SLOT <= i < start ==> HasTable(mem, cr3, i)
        invariant forall i :: KERNEL_SLOT <= i < start && !HasTable(old(mem), cr3, i) ==>
                    TableOf(mem, cr3, i) in old(pages.Free())
        invariant forall i :: start <= i < ENTRIES ==> Entry(mem, cr3, i) == Entry(old(mem), cr3, i)
      {
        ghost var before := mem;
        var done := EnsureTable(start);
        if !done {
          return false;
        }
        forall i | KERNEL_SLOT <= i < start ensures HasTable(mem, cr3, i) {
          assert HasTable(before, cr3, i);
        }
        start := start + 1;
      }
      return true;
    }

    /** One round of its loop. */
    method EnsureTable(start: nat) returns (ok: bool)
      requires Valid() && start < ENTRIES
      modifies this`mem, pages`lastFree, pages.Bitmaps()
      ensures Valid() && pages.Free() <= old(pages.Free())
      ensures ok ==> HasTable(mem, cr3, start)
      ensures KeepsLowPages(old(mem), mem, cr3) && SameSlots(old(mem), mem, cr3, start)
      ensures old(HasTable(mem, cr3, start)) ==> mem == old(mem)
      ensures ok && !old(HasTable(mem, cr3, start)) ==> TableOf(mem, cr3, start) in old(pages.Free())
      ensures !ok ==> pages.Free() == {}
    {
      hide TablesOk, Walk, Entry, R.OnlyMarks, R.FreePages, R.Ok, R.WellFormed, R.Sorted, R.NextFree;
      NotABitmap();
      DirectoryWindow(mem, cr3, start);
      var entry := Load(DIRECTORY + 4 * start);
      if entry % 2 == 0 {
        SelfHasTable(mem, cr3);
        var page := pages.AllocPage();
        if page == None {
          return false;
        }
        ghost var before := mem;
        EmptySlot(mem, cr3, start);
        InstallTable(start, page.value);
        NewTableKeepsLow(before, mem, cr3, start, page.value);
      }
      return true;
    }

    lemma NewTableKeepsLow(m: Memory, m': Memory, c: nat, pd: nat, page: nat)
      requires NewTable(m, m', c, pd, page) && TablesOk(m, c) && !HasTable(m, c, pd) && pd < SELF
      ensures KeepsLowPages(m, m', c)
    {
      hide TablesOk, Walk, PdIndex, PtIndex;
      EmptySlot(m, c, pd);
      forall w: nat | w < WINDOW ensures Walk(m', c, w) == Walk(m, c, w) {
        PageIndices(w, w);
        assert PdIndex(w) == pd || !Affected(w, pd);
      }
    }

    lemma SelfHasTable(m: Memory, c: nat)
      requires TablesOk(m, c)
      ensures HasTable(m, c, SELF)
    {
    }
  }

  /** The tables of the kernel half lie in pairwise different frames. */
  lemma KernelTablesDistinct(mem: Memory, cr3: nat, i: nat, j: nat)
    requires TablesOk(mem, cr3) && KernelReady(mem, cr3)
    requires KERNEL_SLOT <= i < j < ENTRIES
    ensures TableOf(mem, cr3, i) != TableOf(mem, cr3, j)
  {
    assert SlotOk(mem, cr3, i);
    assert HasTable(mem, cr3, i) && HasTable(mem, cr3, j);
  }

  /** Once the page of `vaddr` is mapped to that of `paddr`, every byte of it is translated to the byte at
      the same offset, and every address outside the page and the table window as before. */
  lemma PageTranslates(mem: Memory, mem': Memory, cr3: nat, paddr: nat, vaddr: nat, w: nat)
    requires exists writable :: MapsPage(mem, mem', cr3, vaddr, Mapping(FrameOf(paddr), writable))
    requires paddr % PAGE_SIZE == 0 && vaddr % PAGE_SIZE == 0 && w < SPACE
    ensures vaddr <= w < vaddr + PAGE_SIZE ==> Translate(mem', cr3, w) == Some(paddr + (w - vaddr))
    ensures w < WINDOW && !(vaddr <= w < vaddr + PAGE_SIZE) ==> Translate(mem', cr3, w) == Translate(mem, cr3, w)
  {
    hide Walk, HasTable;
    assert w / PAGE_SIZE == vaddr / PAGE_SIZE <==> vaddr <= w < vaddr + PAGE_SIZE;
  }

  /** Mapping a page keeps the kernel half ready. */
  lemma StaysReady(mem: Memory, mem': Memory, cr3: nat, pd: nat)
    requires KernelReady(mem, cr3) && SameSlots(mem, mem', cr3, pd) && HasTable(mem', cr3, pd)
    ensures KernelReady(mem', cr3)
  {
    forall i | KERNEL_SLOT <= i < ENTRIES ensures HasTable(mem', cr3, i) {
      assert HasTable(mem, cr3, i);
    }
  }
}
