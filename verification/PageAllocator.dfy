/** The physical page allocator: bitmaps edited in place behind a roving hint. */
module PageAllocator {
  import opened Bitmap
  import opened Regions
  import opened Options
  import PageRuns

  class MemoryRegion {
    const base: nat
    const length: nat
    const bitmap: array<bv8>

    constructor (base: nat, length: nat, bitmap: array<bv8>)
      ensures this.base == base && this.length == length && this.bitmap == bitmap
    {
      this.base, this.length, this.bitmap := base, length, bitmap;
    }

    ghost function View(): Region
      reads bitmap
    {
      Region(base, length, bitmap[..])
    }
  }

  /** `memory_region_overlap`: no page is shared when it says no, but a range that starts right behind
      the region is reported as overlapping. */
  predicate Overlap(region: MemoryRegion, min: nat, max: nat) {
    if max < region.base then false
    else if min > region.base + region.length then false
    else true
  }

  /** The allocator; `regions` is the list headed by the root region, `lastFree` the position in it
      that `_last_free_region` points at. */
  class Allocator {
    const regions: seq<MemoryRegion>
    var lastFree: nat

    ghost function Bitmaps(): set<object> {
      set i | 0 <= i < |regions| :: regions[i].bitmap
    }

    ghost function Views(): (vs: seq<Region>)
      reads Bitmaps()
      ensures |vs| == |regions|
      ensures forall i :: 0 <= i < |vs| ==> vs[i] == regions[i].View()
    {
      seq(|regions|, i requires 0 <= i < |regions| reads Bitmaps() => regions[i].View())
    }

    ghost predicate Separate() {
      forall i, j :: 0 <= i < j < |regions| ==> regions[i].bitmap != regions[j].bitmap
    }

    ghost predicate Valid()
      reads this, Bitmaps()
    {
      && lastFree < |regions|
      && Separate()
      && Ok(Views())
    }

    ghost function Free(): set<nat>
      reads this, Bitmaps()
      requires Valid()
    {
      FreePages(Views())
    }

    /** `memory_region_early_init`.  Its clamp allows four times as many pages as the bitmap has bits: every
        page of the region it sets up has a byte of the bitmap, which is what the allocator's other
        routines rely on, exactly for lengths that the caller has clamped further. */
    constructor EarlyInit(base: nat, length: nat)
      requires base + length <= PAGE_LIMIT
      ensures Views() == [Clamped(base, length)]
      ensures BitmapCovers(Views()[0]) <==> length <= BITMAP_PAGES
      ensures Valid() <==> length <= BITMAP_PAGES
      ensures lastFree == 0 && fresh(Bitmaps())
    {
      var maxSize := MEMORY_BITMAP_SIZE * 32;
      var bitmap := new bv8[MEMORY_BITMAP_SIZE](_ => 0);
      var initial := new MemoryRegion(base, if length > maxSize then maxSize else length, bitmap);
      regions := [initial];
      lastFree := 0;
      new;
      assert bitmap[..] == seq(MEMORY_BITMAP_SIZE, _ => 0);
      assert regions[0].View() == Views()[0];
      ClampCoversIff(base, length);
    }

    lemma ViewsAfter(before: seq<Region>, i: nat, bits: seq<bv8>)
      requires |before| == |regions| && i < |regions| && Separate()
      requires regions[i].bitmap[..] == bits && before[i].base == regions[i].base && before[i].length == regions[i].length
      requires forall j :: 0 <= j < |regions| && j != i ==> before[j] == regions[j].View()
      ensures Views() == before[i := before[i].(bits := bits)]
    {
    }

    /** `memory_region_setbit` from the region at `start`. */
    method SetBit(start: nat, page: nat, on: bool)
      requires Valid() && start <= |regions|
      modifies Bitmaps()
      ensures Valid() && lastFree == old(lastFree)
      ensures Views() == SetIn(old(Views()), start, page, on)
    {
      ghost var vs := Views();
      var region := start;
      while region < |regions| && page >= regions[region].base + regions[region].length
        invariant region <= |regions| && Locate(vs, start, page) == Locate(vs, region, page)
        decreases |regions| - region
      {
        region := region + 1;
      }
      if region < |regions| && page >= regions[region].base {
        var k := page - regions[region].base;
        var bitmap := regions[region].bitmap;
        var element := k / 8;
        var index := k - 8 * element;
        assert vs[region].WellFormed();
        assert element < bitmap.Length && index == k % 8;
        ghost var bits := bitmap[..];
        bitmap[element] := Set8(bitmap[element], index, on);
        assert bitmap[..] == WithBit(bits, k, on);
        ViewsAfter(vs, region, bitmap[..]);
      }
    }

    /** `memory_region_getbit` from the root.  Its lower bound is strict, so it reports the first page
        of a region as belonging to none. */
    method GetBit(page: nat) returns (r: int)
      requires Valid()
      ensures r == 1 || r == 0 || r == -1
      ensures forall i :: 0 <= i < |regions| && Views()[i].Contains(page) ==>
                if page == Views()[i].base then r == -1
                else r == if Bit(Views()[i].bits, page - Views()[i].base) then 1 else 0
      ensures !Marked(Views(), page, true) && !Marked(Views(), page, false) ==> r == -1
    {
      ghost var vs := Views();
      LocateFinds(vs, page);
      var region := 0;
      while region < |regions| && page >= regions[region].base + regions[region].length
        invariant region <= |regions| && Locate(vs, 0, page) == Locate(vs, region, page)
        decreases |regions| - region
      {
        region := region + 1;
      }
      forall i | 0 <= i < |regions| && vs[i].Contains(page) ensures i == region {
        MarkedEither(vs, i, page);
        OneHolder(vs, i, Locate(vs, 0, page), page);
      }
      if region < |regions| && page > regions[region].base {
        var k := page - regions[region].base;
        var bitmap := regions[region].bitmap;
        var element := k / 8;
        var index := k - 8 * element;
        assert vs[region].WellFormed();
        assert index == k % 8;
        return if Test8(bitmap[element], index) then 1 else 0;
      }
      return -1;
    }

    /** The word that the `i`-th iteration over a region reads. */
    method ReadWord(region: nat, i: nat) returns (w: bv32)
      requires region < |regions| && 4 * i + 3 < regions[region].bitmap.Length
      ensures w == WordAt(regions[region].bitmap[..], i)
    {
      var bitmap := regions[region].bitmap;
      w := Word(bitmap[4 * i], bitmap[4 * i + 1], bitmap[4 * i + 2], bitmap[4 * i + 3]);
    }

    method WriteWord(region: nat, i: nat, w: bv32)
      requires region < |regions| && 4 * i + 3 < regions[region].bitmap.Length
      modifies regions[region].bitmap
      ensures regions[region].bitmap[..] == StoreWord(old(regions[region].bitmap[..]), i, w)
    {
      var bitmap := regions[region].bitmap;
      bitmap[4 * i], bitmap[4 * i + 1], bitmap[4 * i + 2], bitmap[4 * i + 3] := Byte0(w), Byte1(w), Byte2(w), Byte3(w);
    }

    /** The scan of `memory_region_find_and_set` over the words of one region. */
    method FindInRegion(region: nat) returns (r: Option<nat>)
      requires Valid() && region < |regions|
      modifies Bitmaps()
      ensures Valid() && lastFree == old(lastFree)
      ensures r.None? ==> Views() == old(Views()) && forall p :: !FreeIn(old(Views())[region], p)
      ensures r.Some? ==> LowestIn(old(Views()), region, r.value) && Views() == Put(old(Views()), region, r.value, true)
    {
      hide Test32, Not32, Set32, StoreWord, WordAt, LowestIn, Sorted;
      ghost var vs := Views();
      ghost var v := vs[region];
      assert v.WellFormed();
      var n := regions[region].length / 32;
      var i := 0;
      while i < n
        invariant 0 <= i <= n && Views() == vs && lastFree == old(lastFree)
        invariant forall p :: v.base <= p < v.base + 32 * i ==> !FreeIn(v, p)
      {
        var w := ReadWord(region, i);
        var x := Not32(w);
        if x != 0 {
          var y := Ffs(x);
          y := y - 1;
          WriteWord(region, i, Set32(w, y));
          ViewsAfter(vs, region, regions[region].bitmap[..]);
          FirstClearBit(vs, region, i, w, y);
          return Some(regions[region].base + i * 32 + y);
        }
        FullWord(v, i, w);
        i := i + 1;
      }
      return None;
    }

    /** `memory_region_find_and_set` over the regions from `start` up to `end`. */
    method FindAndSet(start: nat, end: nat) returns (r: Option<(nat, nat)>)
      requires Valid() && start <= end <= |regions|
      modifies Bitmaps()
      ensures Valid() && lastFree == old(lastFree)
      ensures r.None? ==> Views() == old(Views())
      ensures r.None? ==> AllTaken(old(Views()), start, end)
      ensures r.Some? ==> var (j, p) := r.value;
                && start <= j < end && AllTaken(old(Views()), start, j) && LowestIn(old(Views()), j, p)
                && Views() == Put(old(Views()), j, p, true)
    {
      hide Sorted, FreeIn, WithBit;
      ghost var vs := Views();
      var region := start;
      while region < end
        invariant start <= region <= end && Views() == vs && lastFree == old(lastFree)
        invariant AllTaken(vs, start, region)
      {
        var found := FindInRegion(region);
        if found != None {
          return Some((region, found.value));
        }
        region := region + 1;
      }
      return None;
    }

    /** `memory_region_alloc_page`: from the hint to the end of the list, then from the root up to the
        hint. */
    method AllocPage() returns (r: Option<nat>)
      requires Valid()
      modifies this`lastFree, Bitmaps()
      ensures Valid()
      ensures r.None? <==> old(Free()) == {}
      ensures PageRuns.Step(old(Views()), if r.None? then PageRuns.Exhausted else PageRuns.Allocated(r.value), Views())
      ensures Free() == if r.None? then {} else old(Free()) - {r.value}
      ensures r.Some? ==> r.value in old(Free())
      ensures r.Some? ==> NextFree(old(Views()), old(lastFree), lastFree, r.value)
      ensures r.None? ==> lastFree == old(lastFree)
    {
      hide Sorted, FreeIn, WithBit, OnlyMarks;
      ghost var vs := Views();
      var found := FindAndSet(lastFree, |regions|);
      if found == None && lastFree != 0 {
        found := FindAndSet(0, lastFree);
      }
      if found == None {
        assert FreePages(vs) == {};
        return None;
      }
      var (region, page) := found.value;
      lastFree := region;
      FreeInFree(vs, region, page);
      PutOnlyMarks(vs, region, page, true);
      return Some(page);
    }

    /** `memory_region_dealloc_page` */
    method DeallocPage(page: nat)
      requires Valid()
      modifies Bitmaps()
      ensures Valid() && lastFree == old(lastFree)
      ensures PageRuns.Step(old(Views()), PageRuns.Deallocated(page), Views())
      ensures Tracked(old(Views()), page) ==> Free() == old(Free()) + {page}
      ensures !Tracked(old(Views()), page) ==> Free() == old(Free())
    {
      LocateFinds(Views(), page);
      if Marked(Views(), page, true) || Marked(Views(), page, false) {
        SetInEffect(Views(), page, false);
      }
      SetBit(0, page, false);
    }

    /** The boot loop that marks the pages of the kernel image, `min` up to `max`, in every region. */
    method ReserveImage(min: nat, max: nat)
      requires Valid()
      modifies Bitmaps()
      ensures Valid() && lastFree == old(lastFree)
      ensures SetsWithin(old(Views()), Views(), min, max)
      ensures forall p: nat :: min <= p < max ==> !Marked(Views(), p, false)
    {
      hide SetsWithin, Sorted, WithBit;
      ghost var vs := Views();
      var region := 0;
      SetsWithinNone(vs, min, max);
      while region < |regions|
        invariant 0 <= region <= |regions| && Valid() && lastFree == old(lastFree)
        invariant SetsWithin(vs, Views(), min, max)
        invariant forall j, p: nat :: 0 <= j < region && min <= p < max && Views()[j].Contains(p) ==>
                    !Marked(Views(), p, false)
      {
        if Overlap(regions[region], min, max) {
          ReserveInRegion(vs, region, min, max);
        }
        region := region + 1;
      }
    }

    /** One round of it, for a region that overlaps the image. */
    method ReserveInRegion(ghost vs: seq<Region>, region: nat, min: nat, max: nat)
      requires Valid() && region < |regions|
      requires Ok(vs) && SetsWithin(vs, Views(), min, max)
      modifies Bitmaps()
      ensures Valid() && lastFree == old(lastFree)
      ensures SetsWithin(vs, Views(), min, max)
      ensures forall p: nat :: !Marked(old(Views()), p, false) ==> !Marked(Views(), p, false)
      ensures forall p: nat :: min <= p < max && Views()[region].Contains(p) ==> !Marked(Views(), p, false)
    {
      hide Marked, SetsWithin, Sorted, SetIn;
      var base, end := regions[region].base, regions[region].base + regions[region].length;
      var offset := if base > min then base else min;
      var first := offset;
      var tagsEnd := if end < max then end else max;
      while offset < tagsEnd
        invariant Valid() && lastFree == old(lastFree) && first <= offset
        invariant SetsWithin(vs, Views(), min, max)
        invariant forall p: nat :: !Marked(old(Views()), p, false) ==> !Marked(Views(), p, false)
        invariant forall p: nat :: first <= p < offset ==> !Marked(Views(), p, false)
        decreases tagsEnd - offset
      {
        ReserveOne(vs, Views(), region, offset, min, max);
        SetBit(region, offset, true);
        offset := offset + 1;
      }
    }
  }

  /** Every page of a region has a byte of the bitmap, so that no routine indexes behind it. */
  ghost predicate BitmapCovers(r: Region) {
    forall p: nat :: r.Contains(p) ==> (p - r.base) / 8 < |r.bits|
  }

  /** The region that `memory_region_early_init` sets up. */
  function Clamped(base: nat, length: nat): Region {
    var maxSize := 32 * MEMORY_BITMAP_SIZE;
    Region(base, if length > maxSize then maxSize else length, seq(MEMORY_BITMAP_SIZE, _ => 0))
  }

  /** `memory_region_setbit` indexes the bitmap inside its bytes for every page of the region exactly
      when the length is at most eight times their number. */
  lemma ClampCoversIff(base: nat, length: nat)
    ensures BitmapCovers(Clamped(base, length)) <==> length <= BITMAP_PAGES
    ensures Clamped(base, length).length == if length > 65536 then 65536 else length
  {
    var r := Clamped(base, length);
    if length > BITMAP_PAGES {
      assert r.Contains(base + BITMAP_PAGES) && (base + BITMAP_PAGES - base) / 8 == MEMORY_BITMAP_SIZE;
    }
  }

  /** A region at 1 MB of 16385 pages passes the clamp, and its last page is the byte behind the bitmap. */
  lemma ClampFails()
    ensures Clamped(256, 16385).Contains(16640) && (16640 - 256) / 8 == |Clamped(256, 16385).bits|
  {
  }

  /** A word without a clear bit holds no free page. */
  lemma FullWord(v: Region, i: nat, w: bv32)
    requires v.WellFormed() && 4 * i + 3 < |v.bits| && w == WordAt(v.bits, i) && Not32(w) == 0
    ensures forall p :: v.base + 32 * i <= p < v.base + 32 * (i + 1) ==> !FreeIn(v, p)
  {
    forall p | v.base + 32 * i <= p < v.base + 32 * (i + 1) ensures !FreeIn(v, p) {
      var y := p - v.base - 32 * i;
      FullWordBit(w, y);
      WordViewAgrees(v.bits, i, y);
    }
  }

  /** The lowest clear bit of the first word that has one is the lowest free page of the region, and
      setting it in the word marks that page. */
  lemma FirstClearBit(vs: seq<Region>, region: nat, i: nat, w: bv32, y: nat)
    requires WellFormed(vs) && region < |vs| && i < vs[region].length / 32 && w == WordAt(vs[region].bits, i) && y < 32
    requires forall p :: vs[region].base <= p < vs[region].base + 32 * i ==> !FreeIn(vs[region], p)
    requires Test32(Not32(w), y) && forall z :: 0 <= z < y ==> !Test32(Not32(w), z)
    ensures var v, page := vs[region], vs[region].base + 32 * i + y;
            && LowestIn(vs, region, page)
            && vs[region := v.(bits := StoreWord(v.bits, i, Set32(w, y)))] == Put(vs, region, page, true)
  {
    hide Test32, Not32, Set32, StoreWord, WordAt, WithBit, Bit;
    var v := vs[region];
    assert v.WellFormed();
    LowerBitsTaken(v, i, w, y);
    ComplementBit(w, y);
    WordViewAgrees(v.bits, i, y);
    StoreWordBit(v.bits, i, y);
  }

  /** Nor does it below its lowest clear bit. */
  lemma LowerBitsTaken(v: Region, i: nat, w: bv32, y: nat)
    requires v.WellFormed() && 4 * i + 3 < |v.bits| && w == WordAt(v.bits, i) && y < 32
    requires forall z :: 0 <= z < y ==> !Test32(Not32(w), z)
    ensures forall p :: v.base + 32 * i <= p < v.base + 32 * i + y ==> !FreeIn(v, p)
  {
    hide Test32, Not32, WordAt;
    forall p | v.base + 32 * i <= p < v.base + 32 * i + y ensures !FreeIn(v, p) {
      var z := p - v.base - 32 * i;
      ComplementBit(w, z);
      WordViewAgrees(v.bits, i, z);
    }
  }

  lemma FullWordBit(w: bv32, y: nat)
    requires y < 32 && Not32(w) == 0
    ensures Test32(w, y)
  {
    ComplementBit(w, y);
    ZeroHitsNothing(Mask32(y));
  }

  lemma ZeroHitsNothing(m: bv32)
    ensures !Hits32(0, m)
  {
  }
}
