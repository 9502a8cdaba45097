/** `paging_earlyinit`: from the boot page tables to a kernel address space that maps itself. */
module PagingBoot {
  import opened Options
  import opened PageAllocator
  import opened PageTables
  import opened AddressSpaces
  import R = Regions
  import PageRuns

  const KERNEL_BASE: nat := 0xC000_0000
  /** Where the new table is seen while the boot directory is still in use. */
  const NEW_TABLE: nat := 0xFFFF_E000

  /** The boot directory in frame `b` maps the kernel half through the table in frame `t`, which maps
      both of them at their kernel addresses. */
  ghost predicate BootMapped(mem: Memory, b: nat, t: nat) {
    && Holds(mem, b) && Holds(mem, t) && b != t && b < 1022 && t < 1022
    && Entry(mem, b, KERNEL_SLOT) == t * PAGE_SIZE + 3
    && Entry(mem, t, t) == t * PAGE_SIZE + 3
    && Entry(mem, t, b) == b * PAGE_SIZE + 3
  }

  /** The boot table shows the new directory `d` at 0xFFFFF000 and the new table `p` at 0xFFFFE000. */
  ghost predicate Aimed(mem: Memory, b: nat, t: nat, d: nat, p: nat) {
    && Holds(mem, b) && Holds(mem, t) && Holds(mem, d) && Holds(mem, p)
    && b != t && d != b && d != t && p != b && p != t && p != d
    && Entry(mem, b, SELF) == t * PAGE_SIZE + 3
    && Entry(mem, t, 1023) == d * PAGE_SIZE + 3
    && Entry(mem, t, 1022) == p * PAGE_SIZE + 3
  }

  lemma WalkVia(mem: Memory, cr3: nat, v: nat, t: nat, f: nat)
    requires Entry(mem, cr3, PdIndex(v)) == t * PAGE_SIZE + 3 && Entry(mem, t, PtIndex(v)) == f * PAGE_SIZE + 3
    ensures Walk(mem, cr3, v) == Some(Mapping(f, true))
  {
    hide Entry, PdIndex, PtIndex;
    EntryDecodes(t, 3);
    EntryDecodes(f, 3);
  }

  lemma BootIndices(i: nat)
    requires i < ENTRIES
    ensures PdIndex(DIRECTORY + 4 * i) == SELF && PtIndex(DIRECTORY + 4 * i) == 1023
    ensures (DIRECTORY + 4 * i) % PAGE_SIZE / 4 == i
    ensures PdIndex(NEW_TABLE + 4 * i) == SELF && PtIndex(NEW_TABLE + 4 * i) == 1022
    ensures (NEW_TABLE + 4 * i) % PAGE_SIZE / 4 == i
  {
    hide PdIndex, PtIndex;
    WordAddress(SELF, 1023, i);
    WordAddress(SELF, 1022, i);
  }

  lemma KernelIndices(frame: nat, i: nat)
    requires frame < ENTRIES && i < ENTRIES
    ensures PdIndex(KERNEL_BASE + frame * PAGE_SIZE + 4 * i) == KERNEL_SLOT
    ensures PtIndex(KERNEL_BASE + frame * PAGE_SIZE + 4 * i) == frame
    ensures (KERNEL_BASE + frame * PAGE_SIZE + 4 * i) % PAGE_SIZE / 4 == i
  {
    hide PdIndex, PtIndex;
    WordAddress(KERNEL_SLOT, frame, i);
  }

  /** A store through either address changes that one entry and keeps the arrangement. */
  lemma AimedStore(mem: Memory, b: nat, t: nat, d: nat, p: nat, i: nat, x: nat)
    requires Aimed(mem, b, t, d, p) && i < ENTRIES
    ensures Walk(mem, b, DIRECTORY + 4 * i) == Some(Mapping(d, true))
    ensures Walk(mem, b, NEW_TABLE + 4 * i) == Some(Mapping(p, true))
    ensures Stored(mem, b, DIRECTORY + 4 * i, x) == SetEntry(mem, d, i, x)
    ensures Stored(mem, b, NEW_TABLE + 4 * i, x) == SetEntry(mem, p, i, x)
    ensures Aimed(SetEntry(mem, d, i, x), b, t, d, p) && Aimed(SetEntry(mem, p, i, x), b, t, d, p)
  {
    hide Entry, PdIndex, PtIndex, Walk;
    BootIndices(i);
    WalkVia(mem, b, DIRECTORY + 4 * i, t, d);
    WalkVia(mem, b, NEW_TABLE + 4 * i, t, p);
    AimedSet(mem, b, t, d, p, d, i, x);
    AimedSet(mem, b, t, d, p, p, i, x);
  }

  lemma AimedSet(mem: Memory, b: nat, t: nat, d: nat, p: nat, f: nat, i: nat, x: nat)
    requires Aimed(mem, b, t, d, p) && i < ENTRIES && (f == d || f == p)
    ensures Aimed(SetEntry(mem, f, i, x), b, t, d, p)
  {
    hide Entry, SetEntry, Holds;
    EntryOfSet(mem, f, i, x, b, SELF);
    EntryOfSet(mem, f, i, x, t, 1023);
    EntryOfSet(mem, f, i, x, t, 1022);
    EntryOfSet(mem, f, i, x, d, 0);
    EntryOfSet(mem, f, i, x, p, 0);
  }

  /** `f` is filled with zeros below `n`; other frames are those of `mem0`. */
  ghost predicate Zeroed(mem0: Memory, mem: Memory, f: nat, n: nat) {
    && mem.Keys == mem0.Keys
    && (forall i :: 0 <= i < n ==> Entry(mem, f, i) == 0)
    && forall g, i: nat :: g != f ==> Entry(mem, g, i) == Entry(mem0, g, i)
  }

  /** `memset` of a page seen at `DIRECTORY` or `NEW_TABLE`. */
  method ClearPage(space: AddressSpace, ghost t: nat, ghost d: nat, ghost p: nat, directory: bool)
    requires Aimed(space.mem, space.cr3, t, d, p)
    modifies space`mem
    ensures Aimed(space.mem, space.cr3, t, d, p)
    ensures Zeroed(old(space.mem), space.mem, if directory then d else p, ENTRIES)
  {
    hide Aimed, Entry, SetEntry, Walk, Stored;
    ghost var b, f := space.cr3, if directory then d else p;
    AimedHolds(space.mem, b, t, d, p);
    var i := 0;
    while i < ENTRIES
      invariant 0 <= i <= ENTRIES && Aimed(space.mem, b, t, d, p)
      invariant Zeroed(old(space.mem), space.mem, f, i)
    {
      ghost var before := space.mem;
      AimedStore(before, b, t, d, p, i, 0);
      AimedHolds(before, b, t, d, p);
      space.Store((if directory then DIRECTORY else NEW_TABLE) + 4 * i, 0);
      ZeroedStep(old(space.mem), before, f, i);
      i := i + 1;
    }
  }

  lemma AimedHolds(mem: Memory, b: nat, t: nat, d: nat, p: nat)
    requires Aimed(mem, b, t, d, p)
    ensures Holds(mem, d) && Holds(mem, p) && d != p
  {
  }

  lemma ZeroedStep(mem0: Memory, mem: Memory, f: nat, i: nat)
    requires Holds(mem, f) && i < ENTRIES && Zeroed(mem0, mem, f, i)
    ensures Zeroed(mem0, SetEntry(mem, f, i, 0), f, i + 1)
  {
    hide Entry, SetEntry, Holds;
    var mem' := SetEntry(mem, f, i, 0);
    assert mem'.Keys == mem.Keys by {
      SetEntryKeys(mem, f, i, 0);
    }
    forall g, j: nat ensures Entry(mem', g, j) == if g == f && j == i then 0 else Entry(mem, g, j) {
      EntryOfSet(mem, f, i, 0, g, j);
    }
  }

  lemma SetEntryKeys(mem: Memory, f: nat, i: nat, x: nat)
    ensures SetEntry(mem, f, i, x).Keys == mem.Keys
  {
  }

  /** The entry that the identity loop writes for page `i`. */
  function IdentityEntry(i: nat, end: nat): nat {
    if i < end then i * PAGE_SIZE + 3 else 0
  }

  /** Table `p` maps the first `end` pages of the kernel half one to one, below `n`; other frames are
      those of `mem0`. */
  ghost predicate Identity(mem0: Memory, mem: Memory, p: nat, end: nat, n: nat) {
    && mem.Keys == mem0.Keys
    && (forall i :: 0 <= i < n ==> Entry(mem, p, i) == IdentityEntry(i, end))
    && forall g, i: nat :: g != p ==> Entry(mem, g, i) == Entry(mem0, g, i)
  }

  /** The loop that fills the new kernel page table. */
  method FillKernelTable(space: AddressSpace, ghost t: nat, ghost d: nat, ghost p: nat, start: nat, end: nat)
    requires Aimed(space.mem, space.cr3, t, d, p)
    modifies space`mem
    ensures Aimed(space.mem, space.cr3, t, d, p)
    ensures Identity(old(space.mem), space.mem, p, if start < end then end else start, ENTRIES)
  {
    hide Aimed, Entry, SetEntry, Walk, Stored;
    ghost var b, last := space.cr3, if start < end then end else start;
    var i := 0;
    while i < ENTRIES
      invariant 0 <= i <= ENTRIES && Aimed(space.mem, b, t, d, p)
      invariant Identity(old(space.mem), space.mem, p, last, i)
    {
      ghost var before := space.mem;
      ghost var x := IdentityEntry(i, last);
      AimedStore(before, b, t, d, p, i, x);
      AimedHolds(before, b, t, d, p);
      if i < start {
        space.Store(NEW_TABLE + i * 4, i * PAGE_SIZE + 3);
      } else if i < end {
        space.Store(NEW_TABLE + i * 4, i * PAGE_SIZE + 3);
      } else {
        space.Store(NEW_TABLE + i * 4, 0);
      }
      IdentityStep(old(space.mem), before, p, last, i);
      i := i + 1;
    }
  }

  lemma IdentityStep(mem0: Memory, mem: Memory, p: nat, end: nat, i: nat)
    requires Holds(mem, p) && i < ENTRIES && Identity(mem0, mem, p, end, i)
    ensures Identity(mem0, SetEntry(mem, p, i, IdentityEntry(i, end)), p, end, i + 1)
  {
    hide Entry, SetEntry, Holds, IdentityEntry;
    var mem' := SetEntry(mem, p, i, IdentityEntry(i, end));
    SetEntryKeys(mem, p, i, IdentityEntry(i, end));
    forall g, j: nat ensures Entry(mem', g, j) == if g == p && j == i then IdentityEntry(i, end) else Entry(mem, g, j) {
      EntryOfSet(mem, p, i, IdentityEntry(i, end), g, j);
    }
  }

  /** The directory and table that the new address space starts with. */
  ghost predicate NewSpace(mem: Memory, b: nat, d: nat, p: nat, end: nat) {
    && Holds(mem, d) && Holds(mem, p) && d != p
    && DirectoryOf(mem, d, p)
    && forall i :: 0 <= i < ENTRIES ==>
         Entry(mem, p, i) == if i == b then b * PAGE_SIZE + 1 else IdentityEntry(i, end)
  }

  lemma NewSpaceTables(mem: Memory, b: nat, d: nat, p: nat, end: nat)
    requires NewSpace(mem, b, d, p, end)
    ensures TablesOk(mem, d)
  {
    hide Entry, Holds;
    EntryDecodes(d, 3);
    EntryDecodes(p, 3);
    assert Entry(mem, d, SELF) == d * PAGE_SIZE + 3;
    assert Entry(mem, d, KERNEL_SLOT) == p * PAGE_SIZE + 3;
    forall i | 0 <= i < SELF
      ensures SlotOk(mem, d, i) && (i != KERNEL_SLOT ==> !HasTable(mem, d, i))
    {
      assert Entry(mem, d, i) == if i == KERNEL_SLOT then p * PAGE_SIZE + 3 else 0;
    }
  }

  /** The image pages are mapped one to one from 0xC0000000, all but the boot directory to be written, and
      nothing else below the window is. */
  ghost predicate MapsImage(mem: Memory, cr3: nat, b: nat, end: nat) {
    forall w: nat :: w < WINDOW ==>
      Walk(mem, cr3, w) ==
        if PdIndex(w) == KERNEL_SLOT && (PtIndex(w) < end || PtIndex(w) == b)
        then Some(Mapping(PtIndex(w), PtIndex(w) != b)) else None
  }

  lemma NewSpaceMaps(mem: Memory, b: nat, d: nat, p: nat, end: nat)
    requires NewSpace(mem, b, d, p, end)
    ensures MapsImage(mem, d, b, end)
  {
    hide Entry, PdIndex, PtIndex;
    EntryDecodes(p, 3);
    assert !Present(0);
    forall w: nat | w < WINDOW
      ensures Walk(mem, d, w) ==
        if PdIndex(w) == KERNEL_SLOT && (PtIndex(w) < end || PtIndex(w) == b)
        then Some(Mapping(PtIndex(w), PtIndex(w) != b)) else None
    {
      PageIndices(w, w);
      var i, j := PdIndex(w), PtIndex(w);
      EntryDecodes(j, 3);
      EntryDecodes(j, 1);
      assert Entry(mem, d, i) == if i == KERNEL_SLOT then p * PAGE_SIZE + 3 else 0;
      assert Entry(mem, p, j) == if j == b then b * PAGE_SIZE + 1 else IdentityEntry(j, end);
    }
  }

  /** The directory holds itself and one table, and nothing else. */
  ghost predicate StartsWith(mem: Memory, d: nat, p: nat) {
    && TableOf(mem, d, SELF) == d && HasTable(mem, d, SELF)
    && TableOf(mem, d, KERNEL_SLOT) == p && HasTable(mem, d, KERNEL_SLOT)
    && forall i :: 0 <= i < ENTRIES && i != SELF && i != KERNEL_SLOT ==> !HasTable(mem, d, i)
  }

  lemma NewSpaceStarts(mem: Memory, b: nat, d: nat, p: nat, end: nat)
    requires NewSpace(mem, b, d, p, end)
    ensures StartsWith(mem, d, p)
  {
    EntryDecodes(d, 3);
    EntryDecodes(p, 3);
  }

  /** Tables that stay where they were put and tables in new frames all lie in frames that were free. */
  lemma KernelFramesFree(mem: Memory, mem': Memory, d: nat, p: nat, free: set<nat>, rest: set<nat>)
    requires StartsWith(mem, d, p) && KeepsTables(mem, mem', d) && d in free && p in free && rest <= free
    requires forall i :: KERNEL_SLOT <= i < ENTRIES && !HasTable(mem, d, i) ==> TableOf(mem', d, i) in rest
    ensures forall i :: KERNEL_SLOT <= i < ENTRIES ==> TableOf(mem', d, i) in free
  {
    hide Entry;
    forall i | KERNEL_SLOT <= i < ENTRIES ensures TableOf(mem', d, i) in free {
      if i == SELF || i == KERNEL_SLOT {
        assert Entry(mem', d, i) == Entry(mem, d, i);
      } else {
        assert !HasTable(mem, d, i);
      }
    }
  }

  /** Entering the frames of the two new pages into the boot table. */
  method AimWindow(space: AddressSpace, b: nat, t: nat, d: nat, p: nat)
    requires space.cr3 == b && BootMapped(space.mem, b, t)
    requires Holds(space.mem, d) && Holds(space.mem, p) && d != p && d != b && d != t && p != b && p != t
    modifies space`mem
    ensures Aimed(space.mem, b, t, d, p) && space.mem.Keys == old(space.mem).Keys
  {
    hide Entry, SetEntry, Walk, PdIndex, PtIndex, Holds;
    ghost var m0 := space.mem;
    KernelIndices(t, 1023);
    KernelIndices(t, 1022);
    KernelIndices(b, 1023);
    WalkVia(m0, b, KERNEL_BASE + t * PAGE_SIZE + 4 * 1023, t, t);
    space.Store(KERNEL_BASE + t * PAGE_SIZE + 4 * 1023, d * PAGE_SIZE + 3);
    ghost var m1 := space.mem;
    forall f, j: nat ensures Entry(m1, f, j) == if f == t && j == 1023 then d * PAGE_SIZE + 3 else Entry(m0, f, j) {
      EntryOfSet(m0, t, 1023, d * PAGE_SIZE + 3, f, j);
    }
    forall f ensures Holds(m1, f) == Holds(m0, f) { EntryOfSet(m0, t, 1023, d * PAGE_SIZE + 3, f, 0); }
    WalkVia(m1, b, KERNEL_BASE + t * PAGE_SIZE + 4 * 1022, t, t);
    space.Store(KERNEL_BASE + t * PAGE_SIZE + 4 * 1022, p * PAGE_SIZE + 3);
    ghost var m2 := space.mem;
    forall f, j: nat ensures Entry(m2, f, j) == if f == t && j == 1022 then p * PAGE_SIZE + 3 else Entry(m1, f, j) {
      EntryOfSet(m1, t, 1022, p * PAGE_SIZE + 3, f, j);
    }
    forall f ensures Holds(m2, f) == Holds(m1, f) { EntryOfSet(m1, t, 1022, p * PAGE_SIZE + 3, f, 0); }
    WalkVia(m2, b, KERNEL_BASE + b * PAGE_SIZE + 4 * 1023, t, b);
    space.Store(KERNEL_BASE + b * PAGE_SIZE + 4 * 1023, t * PAGE_SIZE + 3);
    ghost var m3 := space.mem;
    forall f, j: nat ensures Entry(m3, f, j) == if f == b && j == 1023 then t * PAGE_SIZE + 3 else Entry(m2, f, j) {
      EntryOfSet(m2, b, 1023, t * PAGE_SIZE + 3, f, j);
    }
    forall f ensures Holds(m3, f) == Holds(m2, f) { EntryOfSet(m2, b, 1023, t * PAGE_SIZE + 3, f, 0); }
    SetEntryKeys(m0, t, 1023, d * PAGE_SIZE + 3);
    SetEntryKeys(m1, t, 1022, p * PAGE_SIZE + 3);
    SetEntryKeys(m2, b, 1023, t * PAGE_SIZE + 3);
  }

  /** The directory `d` holds itself and the table `p`, and nothing else. */
  ghost predicate DirectoryOf(mem: Memory, d: nat, p: nat) {
    forall i :: 0 <= i < ENTRIES ==>
      Entry(mem, d, i) == if i == SELF then d * PAGE_SIZE + 3 else if i == KERNEL_SLOT then p * PAGE_SIZE + 3 else 0
  }

  /** The two entries of the cleared directory. */
  method PointDirectory(space: AddressSpace, b: nat, ghost t: nat, d: nat, p: nat)
    requires space.cr3 == b && Aimed(space.mem, b, t, d, p)
    requires forall i :: 0 <= i < ENTRIES ==> Entry(space.mem, d, i) == 0
    modifies space`mem
    ensures Aimed(space.mem, b, t, d, p) && space.mem.Keys == old(space.mem).Keys
    ensures DirectoryOf(space.mem, d, p)
  {
    hide Aimed, Entry, SetEntry, Walk, Stored;
    ghost var m0 := space.mem;
    AimedStore(m0, b, t, d, p, SELF, d * PAGE_SIZE + 3);
    AimedHolds(m0, b, t, d, p);
    space.Store(DIRECTORY + 4 * SELF, d * PAGE_SIZE + 3);
    ghost var m1 := space.mem;
    SetEntryKeys(m0, d, SELF, d * PAGE_SIZE + 3);
    AimedStore(m1, b, t, d, p, KERNEL_SLOT, p * PAGE_SIZE + 3);
    space.Store(DIRECTORY + 4 * KERNEL_SLOT, p * PAGE_SIZE + 3);
    SetEntryKeys(m1, d, KERNEL_SLOT, p * PAGE_SIZE + 3);
    DirectoryBuilt(m0, d, p);
  }

  /** Filling the new directory and table through the boot table. */
  method BuildSpace(space: AddressSpace, b: nat, ghost t: nat, d: nat, p: nat, start: nat, end: nat)
    requires space.cr3 == b && b < ENTRIES && Aimed(space.mem, b, t, d, p)
    modifies space`mem
    ensures NewSpace(space.mem, b, d, p, if start < end then end else start)
    ensures space.mem.Keys == old(space.mem).Keys
  {
    hide Aimed, Entry, SetEntry, Walk, Stored, IdentityEntry, DirectoryOf, Identity, NewSpace;
    ClearPage(space, t, d, p, false);
    ClearPage(space, t, d, p, true);
    PointDirectory(space, b, t, d, p);
    ghost var m2 := space.mem;
    FillKernelTable(space, t, d, p, start, end);
    ghost var m3 := space.mem;
    AimedStore(m3, b, t, d, p, b, b * PAGE_SIZE + 1);
    AimedHolds(m3, b, t, d, p);
    space.Store(NEW_TABLE + b * 4, b * PAGE_SIZE + 1);
    SpaceBuilt(m2, m3, b, d, p, if start < end then end else start);
  }

  /** The last store write-protects the page of the boot directory. */
  lemma SpaceBuilt(m2: Memory, m3: Memory, b: nat, d: nat, p: nat, end: nat)
    requires DirectoryOf(m2, d, p) && Identity(m2, m3, p, end, ENTRIES)
    requires Holds(m3, d) && Holds(m3, p) && d != p && b < ENTRIES
    ensures NewSpace(SetEntry(m3, p, b, b * PAGE_SIZE + 1), b, d, p, end)
    ensures SetEntry(m3, p, b, b * PAGE_SIZE + 1).Keys == m2.Keys
  {
    hide Entry, SetEntry, IdentityEntry;
    var x := b * PAGE_SIZE + 1;
    SetEntryKeys(m3, p, b, x);
    forall f, j: nat ensures Entry(SetEntry(m3, p, b, x), f, j) == if f == p && j == b then x else Entry(m3, f, j) {
      EntryOfSet(m3, p, b, x, f, j);
    }
    EntryOfSet(m3, p, b, x, d, 0);
    EntryOfSet(m3, p, b, x, p, 0);
  }

  lemma DirectoryBuilt(m0: Memory, d: nat, p: nat)
    requires Holds(m0, d) && d != p && forall i :: 0 <= i < ENTRIES ==> Entry(m0, d, i) == 0
    ensures var m2 := SetEntry(SetEntry(m0, d, SELF, d * PAGE_SIZE + 3), d, KERNEL_SLOT, p * PAGE_SIZE + 3);
            forall i :: 0 <= i < ENTRIES ==>
              Entry(m2, d, i) == if i == SELF then d * PAGE_SIZE + 3 else if i == KERNEL_SLOT then p * PAGE_SIZE + 3 else 0
  {
    hide Entry, SetEntry, Holds;
    var m1 := SetEntry(m0, d, SELF, d * PAGE_SIZE + 3);
    var m2 := SetEntry(m1, d, KERNEL_SLOT, p * PAGE_SIZE + 3);
    forall i | 0 <= i < ENTRIES
      ensures Entry(m2, d, i) == if i == SELF then d * PAGE_SIZE + 3 else if i == KERNEL_SLOT then p * PAGE_SIZE + 3 else 0
    {
      EntryOfSet(m0, d, SELF, d * PAGE_SIZE + 3, d, i);
      EntryOfSet(m1, d, KERNEL_SLOT, p * PAGE_SIZE + 3, d, i);
    }
  }

  /** `paging_earlyinit`.  `b` and `t` are the frames of the boot directory and table, [`start`, `end`)
      the pages of the image; `ok` is false where the source panics. */
  method PagingEarlyInit(space: AddressSpace, b: nat, t: nat, start: nat, end: nat) returns (ok: bool)
    requires space.pages.Valid() && space.cr3 == b && BootMapped(space.mem, b, t)
    requires forall f :: f in space.mem ==> f !in space.pages.Free()
    modifies space`mem, space`cr3, space.pages`lastFree, space.pages.Bitmaps()
    ensures space.pages.Valid() && (!ok ==> space.pages.Free() == {})
    ensures ok ==> space.Valid() && KernelReady(space.mem, space.cr3)
    ensures ok ==> space.cr3 in old(space.pages.Free())
    ensures ok ==> exists region :: R.NextFree(old(space.pages.Views()), old(space.pages.lastFree), region, space.cr3)
    ensures ok ==> forall i :: KERNEL_SLOT <= i < ENTRIES ==> TableOf(space.mem, space.cr3, i) in old(space.pages.Free())
    ensures ok ==> MapsImage(space.mem, space.cr3, b, if start < end then end else start)
  {
    hide TablesOk, Walk, Entry, HasTable, BootMapped, MapsImage, StartsWith, KeepsTables, KernelReady,
      PageRuns.Step, R.OnlyMarks, R.FreePages, R.Ok, R.WellFormed, R.Sorted, R.NextFree;
    BootFrames(space.mem, b, t);
    OkWellFormed(space.pages.Views());
    ghost var free := space.pages.Free();
    var dir := space.pages.AllocPage();
    if dir == None {
      return false;
    }
    assert R.NextFree(old(space.pages.Views()), old(space.pages.lastFree), space.pages.lastFree, dir.value);
    var tab := space.pages.AllocPage();
    if tab == None {
      return false;
    }
    SwitchSpace(space, b, t, dir.value, tab.value, start, end);
    ghost var before, rest := space.mem, space.pages.Free();
    ok := space.InitKernelSpace();
    SameImage(before, space.mem, space.cr3, b, if start < end then end else start);
    if ok {
      KernelFramesFree(before, space.mem, dir.value, tab.value, free, rest);
    }
  }

  /** Everything between the two allocations and the tables of the kernel half. */
  method SwitchSpace(space: AddressSpace, b: nat, t: nat, d: nat, p: nat, start: nat, end: nat)
    requires space.cr3 == b && BootMapped(space.mem, b, t)
    requires d !in space.mem && p !in space.mem && d != p
    modifies space`mem, space`cr3
    ensures space.cr3 == d && TablesOk(space.mem, d)
    ensures space.mem.Keys == old(space.mem).Keys + {d, p}
    ensures MapsImage(space.mem, d, b, if start < end then end else start)
    ensures StartsWith(space.mem, d, p)
  {
    hide TablesOk, Walk, Entry, Aimed, NewSpace, Holds, MapsImage, StartsWith;
    BootFrames(space.mem, b, t);
    var oldDir := space.OldContents(d);
    var oldTab := space.OldContents(p);
    BootMappedGrows(space.mem, b, t, d, oldDir, p, oldTab);
    space.mem := space.mem[d := oldDir][p := oldTab];
    AimWindow(space, b, t, d, p);
    BuildSpace(space, b, t, d, p, start, end);
    ghost var last := if start < end then end else start;
    NewSpaceTables(space.mem, b, d, p, last);
    NewSpaceMaps(space.mem, b, d, p, last);
    NewSpaceStarts(space.mem, b, d, p, last);
    space.cr3 := d;
  }

  lemma OkWellFormed(vs: seq<R.Region>)
    requires R.Ok(vs)
    ensures R.WellFormed(vs)
  {
  }

  lemma BootFrames(mem: Memory, b: nat, t: nat)
    requires BootMapped(mem, b, t)
    ensures b in mem && t in mem && b < ENTRIES
  {
  }

  lemma BootMappedGrows(mem: Memory, b: nat, t: nat, d: nat, cd: seq<nat>, p: nat, cp: seq<nat>)
    requires BootMapped(mem, b, t) && d !in mem && p !in mem && d != p
    requires |cd| == ENTRIES && |cp| == ENTRIES
    ensures BootMapped(mem[d := cd][p := cp], b, t)
    ensures Holds(mem[d := cd][p := cp], d) && Holds(mem[d := cd][p := cp], p)
  {
  }

  lemma SameImage(mem: Memory, mem': Memory, cr3: nat, b: nat, end: nat)
    requires MapsImage(mem, cr3, b, end) && KeepsLowPages(mem, mem', cr3)
    ensures MapsImage(mem', cr3, b, end)
  {
    hide Walk, PdIndex, PtIndex;
  }
}
