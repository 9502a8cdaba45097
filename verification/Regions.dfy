/** The list of memory regions as a set of pages. */
module Regions {
  import opened Bitmap

  const MEMORY_BITMAP_SIZE: nat := 2048
  /** Pages that a bitmap has a bit for; the boot code clamps a region to this many. */
  const BITMAP_PAGES: nat := 8 * MEMORY_BITMAP_SIZE
  /** Page numbers of a 32-bit physical address space. */
  const PAGE_LIMIT: nat := 0x10_0000

  datatype Region = Region(base: nat, length: nat, bits: seq<bv8>) {
    predicate Contains(page: nat) {
      base <= page < base + length
    }

    /** `memory_region_find_and_set` looks at whole words only. */
    predicate Tracks(page: nat) {
      base <= page < base + 32 * (length / 32)
    }

    ghost predicate WellFormed() {
      length <= BITMAP_PAGES && |bits| == MEMORY_BITMAP_SIZE && base + length <= PAGE_LIMIT
    }
  }

  ghost predicate WellFormed(vs: seq<Region>) {
    forall i :: 0 <= i < |vs| ==> vs[i].WellFormed()
  }

  /** The list is sorted by address and its regions are disjoint. */
  ghost predicate Sorted(vs: seq<Region>) {
    forall i, j :: 0 <= i < j < |vs| ==> vs[i].base + vs[i].length <= vs[j].base
  }

  ghost predicate Ok(vs: seq<Region>) {
    WellFormed(vs) && Sorted(vs)
  }

  /** Some region has the page among the whole words that `memory_region_find_and_set` looks at. */
  ghost predicate Tracked(vs: seq<Region>, page: nat) {
    exists i :: 0 <= i < |vs| && vs[i].Tracks(page)
  }

  /** The bitmap of some region has the bit of this page set, or clear. */
  ghost predicate Marked(vs: seq<Region>, page: nat, on: bool)
    requires WellFormed(vs)
  {
    exists i :: 0 <= i < |vs| && vs[i].Contains(page) && Bit(vs[i].bits, page - vs[i].base) == on
  }

  ghost predicate IsFree(vs: seq<Region>, page: nat)
    requires WellFormed(vs)
  {
    exists i :: 0 <= i < |vs| && FreeIn(vs[i], page)
  }

  ghost predicate FreeIn(v: Region, page: nat)
    requires v.WellFormed()
  {
    v.Tracks(page) && !Bit(v.bits, page - v.base)
  }

  /** `page` is the lowest free page of `vs[region]`. */
  ghost predicate LowestIn(vs: seq<Region>, region: nat, page: nat)
    requires WellFormed(vs)
  {
    region < |vs| && FreeIn(vs[region], page) && forall p: nat :: p < page ==> !FreeIn(vs[region], p)
  }

  /** None of the regions from `start` up to `end` has a free page. */
  ghost predicate AllTaken(vs: seq<Region>, start: nat, end: nat)
    requires WellFormed(vs)
  {
    forall j, p :: start <= j < end && j < |vs| ==> !FreeIn(vs[j], p)
  }

  /** `page` is the lowest free page of the first region that has one, in the order that starts at
      `hint` and wraps at the end of the list. */
  ghost predicate NextFree(vs: seq<Region>, hint: nat, region: nat, page: nat)
    requires WellFormed(vs)
  {
    && LowestIn(vs, region, page)
    && if region >= hint then AllTaken(vs, hint, region) else AllTaken(vs, hint, |vs|) && AllTaken(vs, 0, region)
  }

  ghost function FreePages(vs: seq<Region>): set<nat>
    requires WellFormed(vs)
  {
    set p: nat | 0 <= p < PAGE_LIMIT && IsFree(vs, p)
  }

  /** `vs'` is `vs` with the bit of `page` turned to `on`, and nothing else changed. */
  ghost predicate OnlyMarks(vs: seq<Region>, vs': seq<Region>, page: nat, on: bool)
    requires WellFormed(vs) && WellFormed(vs')
  {
    && (forall q, b :: q != page ==> (Marked(vs', q, b) <==> Marked(vs, q, b)))
    && (Marked(vs', page, on) <==> Marked(vs, page, true) || Marked(vs, page, false))
    && !Marked(vs', page, !on)
    && (forall q :: q != page ==> (IsFree(vs', q) <==> IsFree(vs, q)))
    && (on ==> !IsFree(vs', page))
  }

  /** The same regions, whatever their bits. */
  ghost predicate SameShape(vs: seq<Region>, vs': seq<Region>) {
    |vs'| == |vs| && forall i :: 0 <= i < |vs| ==> vs'[i].base == vs[i].base && vs'[i].length == vs[i].length
  }

  /** Pages outside [min, max) kept their bits, and no bit was cleared. */
  ghost predicate SetsWithin(vs: seq<Region>, vs': seq<Region>, min: nat, max: nat)
    requires WellFormed(vs) && WellFormed(vs')
  {
    && (forall p: nat, b: bool :: !(min <= p < max) ==> (Marked(vs', p, b) <==> Marked(vs, p, b)))
    && forall p: nat :: !Marked(vs, p, false) ==> !Marked(vs', p, false)
  }

  ghost function Put(vs: seq<Region>, i: nat, page: nat, on: bool): (r: seq<Region>)
    requires WellFormed(vs) && i < |vs| && vs[i].Contains(page)
    ensures |r| == |vs| && WellFormed(r)
    ensures Sorted(vs) ==> Sorted(r)
  {
    vs[i := vs[i].(bits := WithBit(vs[i].bits, page - vs[i].base, on))]
  }

  /** The pages behind the last whole word of a region are never handed out: every page can be exactly when
      the length is a multiple of 32. */
  lemma TailLostIff(r: Region)
    ensures (forall p: nat :: r.Contains(p) ==> r.Tracks(p)) <==> r.length % 32 == 0
  {
    if r.length % 32 != 0 {
      assert r.Contains(r.base + 32 * (r.length / 32)) && !r.Tracks(r.base + 32 * (r.length / 32));
    }
  }

  /** Of a region of 31 clear pages none is free. */
  lemma ShortRegionFails()
    ensures var vs := [Region(256, 31, seq(MEMORY_BITMAP_SIZE, _ => 0))];
            Ok(vs) && Marked(vs, 256, false) && FreePages(vs) == {}
  {
    var vs := [Region(256, 31, seq(MEMORY_BITMAP_SIZE, _ => 0))];
    assert vs[0].WellFormed() && vs[0].Contains(256);
    ClearBits(0);
    forall p: nat ensures !IsFree(vs, p) {
      assert !FreeIn(vs[0], p);
    }
  }

  lemma ClearBits(k: nat)
    requires k < BITMAP_PAGES
    ensures !Bit(seq(MEMORY_BITMAP_SIZE, _ => 0), k)
  {
    NothingHit(Mask8(k % 8));
  }

  lemma NothingHit(m: bv8)
    ensures !Hits8(0, m)
  {
  }

  lemma {:induction false} RangeSize(s: set<nat>, base: nat, n: nat)
    requires forall p :: p in s ==> base <= p < base + n
    ensures |s| <= n
    decreases n
  {
    if n > 0 {
      var last := base + n - 1;
      RangeSize(s - {last}, base, n - 1);
    } else if p :| p in s {
      assert false;
    }
  }

  /** One region has at most as many free pages as its bitmap has bits. */
  lemma FreeAtMost(vs: seq<Region>)
    requires WellFormed(vs) && |vs| == 1
    ensures |FreePages(vs)| <= vs[0].length <= BITMAP_PAGES
  {
    assert vs[0].WellFormed();
    RangeSize(FreePages(vs), vs[0].base, vs[0].length);
  }

  /** In a sorted list a page belongs to one region. */
  lemma OneHolder(vs: seq<Region>, i: nat, j: nat, page: nat)
    requires Sorted(vs) && i < |vs| && j < |vs|
    requires vs[i].Contains(page) && vs[j].Contains(page)
    ensures i == j
  {
  }

  lemma PutBit(vs: seq<Region>, i: nat, page: nat, on: bool, j: nat, q: nat)
    requires Ok(vs) && i < |vs| && vs[i].Contains(page)
    requires j < |vs| && vs[j].Contains(q)
    ensures Put(vs, i, page, on)[j].Contains(q)
    ensures Bit(Put(vs, i, page, on)[j].bits, q - vs[j].base) == if q == page then on else Bit(vs[j].bits, q - vs[j].base)
  {
    hide Bit, WithBit;
    if j == i {
      WithBitEffect(vs[i].bits, page - vs[i].base, on, q - vs[i].base);
    } else if q == page {
      OneHolder(vs, i, j, page);
      assert false;
    }
  }

  lemma PutMarked(vs: seq<Region>, i: nat, page: nat, on: bool, q: nat, b: bool)
    requires Ok(vs) && i < |vs| && vs[i].Contains(page)
    ensures Marked(Put(vs, i, page, on), q, b) <==> if q == page then b == on else Marked(vs, q, b)
  {
    hide Bit, WithBit;
    var vs' := Put(vs, i, page, on);
    forall j | 0 <= j < |vs| && vs[j].Contains(q)
      ensures vs'[j].Contains(q)
      ensures Bit(vs'[j].bits, q - vs[j].base) == if q == page then on else Bit(vs[j].bits, q - vs[j].base)
    {
      PutBit(vs, i, page, on, j, q);
    }
    assert vs[i].Contains(page);
  }

  lemma PutFree(vs: seq<Region>, i: nat, page: nat, on: bool, q: nat)
    requires Ok(vs) && i < |vs| && vs[i].Contains(page)
    ensures IsFree(Put(vs, i, page, on), q) <==> if q == page then !on && vs[i].Tracks(page) else IsFree(vs, q)
  {
    hide Bit, WithBit;
    var vs' := Put(vs, i, page, on);
    forall j | 0 <= j < |vs| && vs[j].Contains(q)
      ensures vs'[j].Contains(q)
      ensures Bit(vs'[j].bits, q - vs[j].base) == if q == page then on else Bit(vs[j].bits, q - vs[j].base)
    {
      PutBit(vs, i, page, on, j, q);
    }
    if q == page && vs[i].Tracks(page) {
      assert FreeIn(vs'[i], q) <==> !on;
    }
    forall j | 0 <= j < |vs|
      ensures FreeIn(vs'[j], q) <==> (if q == page then j == i && !on && vs[i].Tracks(page) else FreeIn(vs[j], q))
    {
      if vs[j].Tracks(q) && q == page {
        OneHolder(vs, i, j, page);
      }
    }
  }

  lemma PutOnlyMarks(vs: seq<Region>, i: nat, page: nat, on: bool)
    requires Ok(vs) && i < |vs| && vs[i].Contains(page)
    ensures OnlyMarks(vs, Put(vs, i, page, on), page, on)
    ensures on ==> FreePages(Put(vs, i, page, on)) == FreePages(vs) - {page}
    ensures !on && vs[i].Tracks(page) ==> FreePages(Put(vs, i, page, on)) == FreePages(vs) + {page}
  {
    hide Put, Marked, IsFree;
    var vs' := Put(vs, i, page, on);
    forall q, b ensures Marked(vs', q, b) <==> if q == page then b == on else Marked(vs, q, b) {
      PutMarked(vs, i, page, on, q, b);
    }
    forall q ensures IsFree(vs', q) <==> if q == page then !on && vs[i].Tracks(page) else IsFree(vs, q) {
      PutFree(vs, i, page, on, q);
    }
    assert Marked(vs, page, true) || Marked(vs, page, false) by {
      MarkedEither(vs, i, page);
    }
    assert page < PAGE_LIMIT;
  }

  lemma MarkedEither(vs: seq<Region>, i: nat, page: nat)
    requires WellFormed(vs) && i < |vs| && vs[i].Contains(page)
    ensures Marked(vs, page, true) || Marked(vs, page, false)
  {
  }

  lemma FreeInFree(vs: seq<Region>, i: nat, page: nat)
    requires WellFormed(vs) && i < |vs| && FreeIn(vs[i], page)
    ensures vs[i].Contains(page) && page in FreePages(vs)
  {
    assert vs[i].WellFormed();
    assert IsFree(vs, page);
  }

  /** The region walk shared by `memory_region_setbit` and `memory_region_getbit`. */
  function Locate(vs: seq<Region>, start: nat, page: nat): (i: nat)
    ensures start <= |vs| ==> start <= i <= |vs|
    ensures i < |vs| ==> page < vs[i].base + vs[i].length
    ensures forall j :: start <= j < i && j < |vs| ==> vs[j].base + vs[j].length <= page
    decreases |vs| - start
  {
    if start >= |vs| then start
    else if page >= vs[start].base + vs[start].length then Locate(vs, start + 1, page)
    else start
  }

  ghost function SetIn(vs: seq<Region>, start: nat, page: nat, on: bool): (r: seq<Region>)
    requires WellFormed(vs)
    ensures |r| == |vs| && WellFormed(r)
    ensures Sorted(vs) ==> Sorted(r)
  {
    var i := Locate(vs, start, page);
    if i < |vs| && page >= vs[i].base then Put(vs, i, page, on) else vs
  }

  /** Starting from the root, the walk finds the region of every page that has one. */
  lemma LocateFinds(vs: seq<Region>, page: nat)
    requires Ok(vs)
    ensures var i := Locate(vs, 0, page);
            (i < |vs| && page >= vs[i].base) <==> (Marked(vs, page, true) || Marked(vs, page, false))
  {
    var i := Locate(vs, 0, page);
    if i < |vs| && page >= vs[i].base {
      MarkedEither(vs, i, page);
    }
  }

  lemma SetInEffect(vs: seq<Region>, page: nat, on: bool)
    requires Ok(vs)
    requires Marked(vs, page, true) || Marked(vs, page, false)
    ensures OnlyMarks(vs, SetIn(vs, 0, page, on), page, on)
    ensures on ==> FreePages(SetIn(vs, 0, page, on)) == FreePages(vs) - {page}
    ensures !on && Tracked(vs, page) ==> FreePages(SetIn(vs, 0, page, on)) == FreePages(vs) + {page}
    ensures !on && !Tracked(vs, page) ==> FreePages(SetIn(vs, 0, page, on)) == FreePages(vs)
  {
    LocateFinds(vs, page);
    var i := Locate(vs, 0, page);
    PutOnlyMarks(vs, i, page, on);
    if Tracked(vs, page) {
      var j :| 0 <= j < |vs| && vs[j].Tracks(page);
      OneHolder(vs, i, j, page);
    } else if !on {
      forall q: nat ensures IsFree(Put(vs, i, page, on), q) <==> IsFree(vs, q) {
        PutFree(vs, i, page, on, q);
      }
    }
  }

  /** One step of the boot loop that reserves the pages [min, max). */
  lemma ReserveOne(vs: seq<Region>, now: seq<Region>, i: nat, page: nat, min: nat, max: nat)
    requires Ok(vs) && Ok(now) && SetsWithin(vs, now, min, max)
    requires i < |now| && now[i].Contains(page) && min <= page < max
    ensures SetsWithin(vs, SetIn(now, i, page, true), min, max)
    ensures !Marked(SetIn(now, i, page, true), page, false)
    ensures forall p: nat :: !Marked(now, p, false) ==> !Marked(SetIn(now, i, page, true), p, false)
  {
    assert SetIn(now, i, page, true) == Put(now, i, page, true);
    PutOnlyMarks(now, i, page, true);
  }

  lemma SetsWithinNone(vs: seq<Region>, min: nat, max: nat)
    requires WellFormed(vs)
    ensures SetsWithin(vs, vs, min, max)
  {
  }
}
