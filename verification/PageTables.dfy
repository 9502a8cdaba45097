/** 32-bit paging (section 4.3 of Intel SDM volume 3A): what the MMU computes from a directory and its
    tables, and what a store through the recursive mapping does to them. */
module PageTables {
  import opened Options

  const PAGE_SIZE: nat := 4096
  const ENTRIES: nat := 1024
  const SPACE: nat := 0x1_0000_0000
  /** The window through which the page tables are seen, and within it the directory. */
  const WINDOW: nat := 0xFFC0_0000
  const DIRECTORY: nat := 0xFFFF_F000
  /** Directory slot that points back at the directory. */
  const SELF: nat := 1023

  /** The physical frames that hold directories and tables, as words. */
  type Memory = map<nat, seq<nat>>

  predicate Present(entry: nat) { entry % 2 == 1 }
  predicate Writable(entry: nat) { entry / 2 % 2 == 1 }
  function FrameOf(entry: nat): nat { entry / PAGE_SIZE }

  function PdIndex(v: nat): nat { v / 0x40_0000 }
  function PtIndex(v: nat): nat { v / PAGE_SIZE % ENTRIES }

  /** The low bits that the kernel writes: 1 for a present page, 3 for one that may be written as well. */
  lemma EntryDecodes(frame: nat, flags: nat)
    requires flags == 1 || flags == 3
    ensures Present(frame * PAGE_SIZE + flags) && FrameOf(frame * PAGE_SIZE + flags) == frame
    ensures Writable(frame * PAGE_SIZE + flags) <==> flags == 3
  {
    FrameOfSum(frame, flags);
    LowBits(2048 * frame + flags / 2);
    assert frame * PAGE_SIZE + flags == 2 * (2048 * frame + flags / 2) + 1;
    SecondBit(1024 * frame, flags / 2);
  }

  lemma LowBits(h: nat)
    ensures (2 * h + 1) % 2 == 1 && (2 * h + 1) / 2 == h
  {
  }

  lemma SecondBit(q: nat, b: nat)
    ensures (2 * q + b) % 2 == b % 2
  {
  }

  lemma FrameOfSum(frame: nat, low: nat)
    requires low < PAGE_SIZE
    ensures FrameOf(PAGE_SIZE * frame + low) == frame
  {
  }

  /** A word of physical memory; frames that hold no table are outside the model and read as zero. */
  function Entry(mem: Memory, frame: nat, i: nat): nat {
    if frame in mem && i < |mem[frame]| then mem[frame][i] else 0
  }

  /** A translation: the frame, and whether the kernel may write to the page.  With CR0.WP set, as at boot,
      that takes the write bit of the directory entry and of the table entry. */
  datatype Mapping = Mapping(frame: nat, writable: bool)

  /** The MMU walk: what the page of `v` is mapped to. */
  function Walk(mem: Memory, cr3: nat, v: nat): Option<Mapping> {
    var pde := Entry(mem, cr3, PdIndex(v));
    if !Present(pde) then None
    else
      var pte := Entry(mem, FrameOf(pde), PtIndex(v));
      if !Present(pte) then None else Some(Mapping(FrameOf(pte), Writable(pde) && Writable(pte)))
  }

  function Translate(mem: Memory, cr3: nat, v: nat): Option<nat> {
    match Walk(mem, cr3, v)
    case None => None
    case Some(m) => Some(m.frame * PAGE_SIZE + v % PAGE_SIZE)
  }

  predicate MayStore(mem: Memory, cr3: nat, v: nat) {
    Walk(mem, cr3, v).Some? && Walk(mem, cr3, v).value.writable
  }

  /** The effect of a store of one word at a virtual address where the MMU lets it through. */
  function Stored(mem: Memory, cr3: nat, v: nat, x: nat): Memory {
    match Walk(mem, cr3, v)
    case None => mem
    case Some(m) => if m.writable then SetEntry(mem, m.frame, v % PAGE_SIZE / 4, x) else mem
  }

  function SetEntry(mem: Memory, frame: nat, i: nat, x: nat): Memory {
    if frame in mem && i < |mem[frame]| then
      var words: seq<nat> := mem[frame][i := x];
      mem[frame := words]
    else mem
  }

  ghost predicate Holds(mem: Memory, frame: nat) {
    frame in mem && |mem[frame]| == ENTRIES
  }

  /** A directory whose last slot points at itself and whose other slots are empty or point at tables
      of their own, all with the write bit set. */
  ghost predicate TablesOk(mem: Memory, cr3: nat) {
    && Holds(mem, cr3)
    && Present(Entry(mem, cr3, SELF)) && FrameOf(Entry(mem, cr3, SELF)) == cr3 && Writable(Entry(mem, cr3, SELF))
    && (forall i :: 0 <= i < SELF ==> SlotOk(mem, cr3, i))
    && forall i, j :: 0 <= i < j < SELF && HasTable(mem, cr3, i) && HasTable(mem, cr3, j) ==>
         TableOf(mem, cr3, i) != TableOf(mem, cr3, j)
  }

  predicate HasTable(mem: Memory, cr3: nat, i: nat) {
    Present(Entry(mem, cr3, i))
  }

  function TableOf(mem: Memory, cr3: nat, i: nat): nat {
    FrameOf(Entry(mem, cr3, i))
  }

  ghost predicate SlotOk(mem: Memory, cr3: nat, i: nat) {
    if HasTable(mem, cr3, i) then
      Holds(mem, TableOf(mem, cr3, i)) && TableOf(mem, cr3, i) != cr3 && Writable(Entry(mem, cr3, i))
    else Entry(mem, cr3, i) == 0
  }

  // ----- the recursive mapping

  /** The indices of word `i` of a page. */
  lemma WordAddress(pd: nat, pt: nat, i: nat)
    requires pt < ENTRIES && i < ENTRIES
    ensures var v := 0x40_0000 * pd + PAGE_SIZE * pt + 4 * i;
            PdIndex(v) == pd && PtIndex(v) == pt && v % PAGE_SIZE / 4 == i
  {
    var v, page := 0x40_0000 * pd + PAGE_SIZE * pt + 4 * i, 1024 * pd + pt;
    assert v == 4096 * page + 4 * i;
    InPage(page, 4 * i);
    InSlot(pd, PAGE_SIZE * pt + 4 * i);
    InTable(pd, pt);
  }

  lemma InPage(q: nat, r: nat)
    requires r < 4096
    ensures (4096 * q + r) / 4096 == q && (4096 * q + r) % 4096 == r
  {
  }

  lemma InSlot(q: nat, r: nat)
    requires r < 0x40_0000
    ensures (0x40_0000 * q + r) / 0x40_0000 == q
  {
  }

  lemma InTable(q: nat, r: nat)
    requires r < 1024
    ensures (1024 * q + r) % 1024 == r
  {
  }

  /** A store at 0xFFFFF000 + 4 * i reaches entry `i` of the directory. */
  lemma DirectoryWindow(mem: Memory, cr3: nat, i: nat)
    requires TablesOk(mem, cr3) && i < ENTRIES
    ensures Walk(mem, cr3, DIRECTORY + 4 * i) == Some(Mapping(cr3, true))
    ensures (DIRECTORY + 4 * i) % PAGE_SIZE / 4 == i
  {
    hide PdIndex, PtIndex;
    WordAddress(SELF, SELF, i);
  }

  /** A store at 0xFFC00000 + 4096 * pd + 4 * pt reaches the entry that the MMU uses for the page with
      these indices. */
  lemma TableWindow(mem: Memory, cr3: nat, pd: nat, pt: nat)
    requires TablesOk(mem, cr3) && pd < ENTRIES && pt < ENTRIES && HasTable(mem, cr3, pd)
    ensures Walk(mem, cr3, WINDOW + PAGE_SIZE * pd + 4 * pt) == Some(Mapping(TableOf(mem, cr3, pd), true))
    ensures (WINDOW + PAGE_SIZE * pd + 4 * pt) % PAGE_SIZE / 4 == pt
    ensures Holds(mem, TableOf(mem, cr3, pd))
  {
    hide PdIndex, PtIndex;
    WordAddress(SELF, pd, pt);
    if pd < SELF {
      assert SlotOk(mem, cr3, pd);
    }
  }

  // ----- changing one table entry

  lemma EntryOfSet(mem: Memory, frame: nat, i: nat, x: nat, f: nat, j: nat)
    requires Holds(mem, frame) && i < ENTRIES
    ensures Entry(SetEntry(mem, frame, i, x), f, j) == if f == frame && j == i then x else Entry(mem, f, j)
    ensures Holds(SetEntry(mem, frame, i, x), f) == Holds(mem, f)
  {
  }

  /** Changing a table entry keeps the recursive mapping and moves one page. */
  lemma SetPte(mem: Memory, cr3: nat, pd: nat, pt: nat, x: nat)
    requires TablesOk(mem, cr3) && pd < SELF && pt < ENTRIES && HasTable(mem, cr3, pd)
    ensures TablesOk(SetEntry(mem, TableOf(mem, cr3, pd), pt, x), cr3)
    ensures forall i :: 0 <= i < ENTRIES ==>
              Entry(SetEntry(mem, TableOf(mem, cr3, pd), pt, x), cr3, i) == Entry(mem, cr3, i)
  {
    hide Entry, SetEntry, Holds;
    var t := TableOf(mem, cr3, pd);
    var mem' := SetEntry(mem, t, pt, x);
    assert SlotOk(mem, cr3, pd);
    forall f, j: nat ensures Entry(mem', f, j) == if f == t && j == pt then x else Entry(mem, f, j) {
      EntryOfSet(mem, t, pt, x, f, j);
    }
    forall f ensures Holds(mem', f) == Holds(mem, f) {
      EntryOfSet(mem, t, pt, x, f, 0);
    }
    forall i | 0 <= i < SELF ensures SlotOk(mem', cr3, i) {
      assert SlotOk(mem, cr3, i);
    }
    forall i, j | 0 <= i < j < SELF && HasTable(mem', cr3, i) && HasTable(mem', cr3, j)
      ensures TableOf(mem', cr3, i) != TableOf(mem', cr3, j)
    {
      assert HasTable(mem, cr3, i) && HasTable(mem, cr3, j);
    }
  }

  lemma SetPteWalk(mem: Memory, cr3: nat, pd: nat, pt: nat, x: nat, w: nat)
    requires TablesOk(mem, cr3) && pd < SELF && pt < ENTRIES && HasTable(mem, cr3, pd)
    requires w < SPACE
    ensures Walk(SetEntry(mem, TableOf(mem, cr3, pd), pt, x), cr3, w) ==
              if PdIndex(w) == pd && PtIndex(w) == pt then
                (if Present(x) then Some(Mapping(FrameOf(x), Writable(x))) else None)
              else Walk(mem, cr3, w)
  {
    hide Entry, SetEntry;
    var t := TableOf(mem, cr3, pd);
    var i := PdIndex(w);
    assert SlotOk(mem, cr3, pd);
    EntryOfSet(mem, t, pt, x, cr3, i);
    EntryOfSet(mem, t, pt, x, TableOf(mem, cr3, i), PtIndex(w));
    if i != pd && HasTable(mem, cr3, i) {
      assert TableOf(mem, cr3, i) != t;
    }
  }

  // ----- a new table

  /** The memory after a fresh frame has been entered into an empty directory slot. */
  function Installed(mem: Memory, cr3: nat, pd: nat, frame: nat, contents: seq<nat>): Memory {
    SetEntry(mem[frame := contents], cr3, pd, frame * PAGE_SIZE + 3)
  }

  lemma InstalledEntry(mem: Memory, cr3: nat, pd: nat, frame: nat, contents: seq<nat>, f: nat, j: nat)
    requires Holds(mem, cr3) && pd < ENTRIES && frame !in mem && |contents| == ENTRIES
    ensures Entry(Installed(mem, cr3, pd, frame, contents), f, j) ==
              if f == cr3 && j == pd then frame * PAGE_SIZE + 3
              else if f == frame then (if j < ENTRIES then contents[j] else 0)
              else Entry(mem, f, j)
    ensures Holds(Installed(mem, cr3, pd, frame, contents), f) <==> f == frame || Holds(mem, f)
    ensures Present(frame * PAGE_SIZE + 3) && FrameOf(frame * PAGE_SIZE + 3) == frame
    ensures Writable(frame * PAGE_SIZE + 3)
  {
    EntryDecodes(frame, 3);
  }

  lemma Install(mem: Memory, cr3: nat, pd: nat, frame: nat, contents: seq<nat>)
    requires TablesOk(mem, cr3) && pd < SELF && frame !in mem && |contents| == ENTRIES
    requires !HasTable(mem, cr3, pd)
    ensures TablesOk(Installed(mem, cr3, pd, frame, contents), cr3)
    ensures HasTable(Installed(mem, cr3, pd, frame, contents), cr3, pd)
    ensures TableOf(Installed(mem, cr3, pd, frame, contents), cr3, pd) == frame
    ensures forall i :: 0 <= i < ENTRIES && i != pd ==>
              Entry(Installed(mem, cr3, pd, frame, contents), cr3, i) == Entry(mem, cr3, i)
  {
    hide Entry, Installed;
    var mem' := Installed(mem, cr3, pd, frame, contents);
    assert frame != cr3 && !Holds(mem, frame);
    forall f, j: nat
      ensures f != frame ==> Entry(mem', f, j) == if f == cr3 && j == pd then frame * PAGE_SIZE + 3 else Entry(mem, f, j)
    {
      InstalledEntry(mem, cr3, pd, frame, contents, f, j);
    }
    forall f ensures Holds(mem', f) <==> f == frame || Holds(mem, f) {
      InstalledEntry(mem, cr3, pd, frame, contents, f, 0);
    }
    InstalledEntry(mem, cr3, pd, frame, contents, cr3, pd);
    hide Holds;
    forall i | 0 <= i < SELF ensures SlotOk(mem', cr3, i) {
      assert SlotOk(mem, cr3, i);
    }
    forall i, j | 0 <= i < j < SELF && HasTable(mem', cr3, i) && HasTable(mem', cr3, j)
      ensures TableOf(mem', cr3, i) != TableOf(mem', cr3, j)
    {
      assert SlotOk(mem, cr3, i) && SlotOk(mem, cr3, j);
      assert i != pd && j != pd ==> HasTable(mem, cr3, i) && HasTable(mem, cr3, j);
    }
  }

  /** A new, still unfilled table changes only the translation of the addresses below it and of the
      page of the window that shows it. */
  lemma InstallWalk(mem: Memory, cr3: nat, pd: nat, frame: nat, contents: seq<nat>, w: nat)
    requires TablesOk(mem, cr3) && pd < SELF && frame !in mem && |contents| == ENTRIES
    requires !HasTable(mem, cr3, pd)
    requires w < SPACE && PdIndex(w) != pd && !(PdIndex(w) == SELF && PtIndex(w) == pd)
    ensures Walk(Installed(mem, cr3, pd, frame, contents), cr3, w) == Walk(mem, cr3, w)
  {
    hide Entry, Installed;
    var i := PdIndex(w);
    InstalledEntry(mem, cr3, pd, frame, contents, cr3, i);
    InstalledEntry(mem, cr3, pd, frame, contents, TableOf(mem, cr3, i), PtIndex(w));
    if i < SELF {
      assert SlotOk(mem, cr3, i);
    }
  }
}
