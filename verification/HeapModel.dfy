/** The kernel heap as a row of blocks, each a 16-byte header and a payload, and a free list threaded
    through the headers. */
module HeapModel {

  const ALIGN: nat := 16
  /** `sizeof(malloc_freelist_t)` rounded up to the alignment. */
  const HEADER: nat := 16
  const WORD: nat := 0x1_0000_0000
  const NULL: nat := 0

  datatype Header = Header(next: nat, size: nat)

  /** Addresses are those of headers; memory holds whatever was last written as a header. */
  datatype Heap = Heap(start: nat, top: nat, freelist: nat, headers: map<nat, Header>)

  function SizeOf(h: Heap, a: nat): nat {
    if a in h.headers then h.headers[a].size else 0
  }

  function NextOf(h: Heap, a: nat): nat {
    if a in h.headers then h.headers[a].next else NULL
  }

  /** The address behind a block. */
  function EndOf(h: Heap, a: nat): nat {
    a + HEADER + SizeOf(h, a)
  }

  /** `blocks` lie back to back from `from` to the top of the heap, aligned. */
  ghost predicate Tiles(h: Heap, from: nat, blocks: seq<nat>)
    decreases |blocks|
  {
    if |blocks| == 0 then from == h.top
    else
      && blocks[0] == from && from in h.headers
      && from % ALIGN == 0 && SizeOf(h, from) % ALIGN == 0
      && Tiles(h, EndOf(h, from), blocks[1..])
  }

  /** The free list from `head` on. */
  ghost predicate Linked(h: Heap, head: nat, fl: seq<nat>)
    decreases |fl|
  {
    if |fl| == 0 then head == NULL
    else fl[0] == head && head != NULL && head in h.headers && Linked(h, NextOf(h, head), fl[1..])
  }

  ghost predicate Distinct(s: seq<nat>) {
    forall i, j :: 0 <= i < j < |s| ==> s[i] != s[j]
  }

  /** Allocated blocks (`live`) and free-list entries together tile the heap exactly. */
  ghost predicate HeapInv(h: Heap, blocks: seq<nat>, fl: seq<nat>, live: set<nat>) {
    && 0 < h.start <= h.top < WORD
    && Tiles(h, h.start, blocks)
    && Linked(h, h.freelist, fl)
    && Distinct(fl)
    && (forall a :: a in blocks <==> a in fl || a in live)
    && (forall a :: a in fl ==> a !in live)
  }

  ghost predicate Sound(h: Heap, live: set<nat>) {
    exists blocks, fl :: HeapInv(h, blocks, fl, live)
  }

  // ----- what tiling means

  lemma {:induction false} TilesMember(h: Heap, from: nat, blocks: seq<nat>, a: nat)
    requires Tiles(h, from, blocks) && a in blocks
    ensures a in h.headers && from <= a && EndOf(h, a) <= h.top
    ensures a % ALIGN == 0 && SizeOf(h, a) % ALIGN == 0
    decreases |blocks|
  {
    TilesBound(h, from, blocks);
    if a != blocks[0] {
      TilesMember(h, EndOf(h, from), blocks[1..], a);
    } else {
      TilesBound(h, EndOf(h, from), blocks[1..]);
    }
  }

  lemma {:induction false} TilesBound(h: Heap, from: nat, blocks: seq<nat>)
    requires Tiles(h, from, blocks)
    ensures from + HEADER * |blocks| <= h.top
    decreases |blocks|
  {
    if |blocks| != 0 {
      TilesBound(h, EndOf(h, from), blocks[1..]);
    }
  }

  /** Two blocks of a tiling do not overlap. */
  lemma {:induction false} TilesDisjoint(h: Heap, from: nat, blocks: seq<nat>, a: nat, b: nat)
    requires Tiles(h, from, blocks) && a in blocks && b in blocks && a < b
    ensures EndOf(h, a) <= b
    decreases |blocks|
  {
    if blocks[0] == a {
      TilesMember(h, EndOf(h, from), blocks[1..], b);
    } else {
      if blocks[0] == b {
        TilesMember(h, EndOf(h, from), blocks[1..], a);
      }
      TilesDisjoint(h, EndOf(h, from), blocks[1..], a, b);
    }
  }

  function Bytes(h: Heap, blocks: seq<nat>): nat {
    if |blocks| == 0 then 0 else HEADER + SizeOf(h, blocks[0]) + Bytes(h, blocks[1..])
  }

  /** Headers and payloads account for every byte between the start and the top of the heap. */
  lemma {:induction false} TilesConserve(h: Heap, from: nat, blocks: seq<nat>)
    requires Tiles(h, from, blocks)
    ensures from + Bytes(h, blocks) == h.top
    decreases |blocks|
  {
    if |blocks| != 0 {
      TilesConserve(h, EndOf(h, from), blocks[1..]);
    }
  }

  // ----- changes that keep the tiling

  /** Headers outside the tiling, and next pointers inside it, may change. */
  lemma {:induction false} TilesFrame(h: Heap, h': Heap, from: nat, blocks: seq<nat>)
    requires Tiles(h, from, blocks) && h'.top == h.top
    requires forall a :: a in blocks && a in h.headers ==> a in h'.headers && SizeOf(h', a) == SizeOf(h, a)
    ensures Tiles(h', from, blocks)
    decreases |blocks|
  {
    if |blocks| != 0 {
      assert from in blocks;
      TilesFrame(h, h', EndOf(h, from), blocks[1..]);
    }
  }

  lemma {:induction false} TilesAppend(h: Heap, h': Heap, from: nat, blocks: seq<nat>)
    requires Tiles(h, from, blocks)
    requires forall a :: a in blocks && a in h.headers ==> a in h'.headers && SizeOf(h', a) == SizeOf(h, a)
    requires h.top in h'.headers && h.top % ALIGN == 0 && SizeOf(h', h.top) % ALIGN == 0 && h'.top == EndOf(h', h.top)
    ensures Tiles(h', from, blocks + [h.top])
    decreases |blocks|
  {
    if |blocks| == 0 {
      assert blocks + [h.top] == [h.top];
      assert [h.top][1..] == [];
    } else {
      assert from in blocks;
      TilesAppend(h, h', EndOf(h, from), blocks[1..]);
      assert (blocks + [h.top])[1..] == blocks[1..] + [h.top];
    }
  }

  /** The block list after the neighbour `b` has been merged into `a`. */
  function Drop(blocks: seq<nat>, b: nat): seq<nat> {
    if |blocks| == 0 then []
    else if blocks[0] == b then blocks[1..]
    else [blocks[0]] + Drop(blocks[1..], b)
  }

  lemma DropSecond(blocks: seq<nat>)
    requires |blocks| >= 2 && blocks[0] != blocks[1]
    ensures Drop(blocks, blocks[1]) == [blocks[0]] + blocks[2..]
  {
    var rest := blocks[1..];
    assert Drop(rest, blocks[1]) == rest[1..] == blocks[2..];
  }

  lemma TilesCons(h: Heap, from: nat, blocks: seq<nat>)
    requires from in h.headers && from % ALIGN == 0 && SizeOf(h, from) % ALIGN == 0
    requires Tiles(h, EndOf(h, from), blocks)
    ensures Tiles(h, from, [from] + blocks)
  {
    assert ([from] + blocks)[1..] == blocks;
  }

  lemma AlignedSum(x: nat, y: nat)
    requires x % ALIGN == 0 && y % ALIGN == 0
    ensures (x + HEADER + y) % ALIGN == 0
  {
    var i, j := x / ALIGN, y / ALIGN;
    var k := i + 1 + j;
    assert x + HEADER + y == ALIGN * k;
  }

  lemma MergedEnd(h: Heap, h': Heap, a: nat, b: nat)
    requires EndOf(h, a) == b && SizeOf(h', a) == SizeOf(h, a) + HEADER + SizeOf(h, b)
    ensures EndOf(h', a) == EndOf(h, b) && a < EndOf(h, b)
  {
  }

  /** The first block grows over the second. */
  lemma TilesMergeFirst(h: Heap, h': Heap, blocks: seq<nat>, a: nat, b: nat)
    requires Tiles(h, a, blocks) && |blocks| >= 2 && blocks[1] == b && EndOf(h, a) == b && h'.top == h.top
    requires forall c :: c in blocks && c != a && c in h.headers ==> c in h'.headers && SizeOf(h', c) == SizeOf(h, c)
    requires a in h'.headers && SizeOf(h', a) == SizeOf(h, a) + HEADER + SizeOf(h, b)
    ensures Tiles(h', a, Drop(blocks, b))
  {
    hide Tiles, Drop, SizeOf, EndOf;
    var rest, tail := blocks[1..], blocks[2..];
    assert rest[1..] == tail;
    TilesHead(h, a, blocks);
    TilesHead(h, b, rest);
    MergedEnd(h, h', a, b);
    NotBehind(h, EndOf(h, b), tail, a);
    TilesFrame(h, h', EndOf(h, b), tail);
    AlignedSum(SizeOf(h, a), SizeOf(h, b));
    TilesCons(h', a, tail);
    DropSecond(blocks);
  }

  /** Two neighbouring blocks become one: `a` grows over `b`. */
  lemma {:induction false} TilesMerge(h: Heap, h': Heap, from: nat, blocks: seq<nat>, a: nat, b: nat)
    requires Tiles(h, from, blocks) && a in blocks && b in blocks && EndOf(h, a) == b && h'.top == h.top
    requires forall c :: c in blocks && c != a && c in h.headers ==> c in h'.headers && SizeOf(h', c) == SizeOf(h, c)
    requires a in h'.headers && SizeOf(h', a) == SizeOf(h, a) + HEADER + SizeOf(h, b)
    ensures Tiles(h', from, Drop(blocks, b))
    decreases |blocks|
  {
    TilesMember(h, from, blocks, a);
    TilesMember(h, from, blocks, b);
    var rest := blocks[1..];
    assert blocks == [from] + rest;
    if from == a {
      TilesHead(h, b, rest);
      TilesMergeFirst(h, h', blocks, a, b);
    } else {
      assert from != b;
      TilesMerge(h, h', EndOf(h, from), rest, a, b);
      assert Drop(blocks, b)[1..] == Drop(rest, b);
    }
  }

  lemma TilesHead(h: Heap, from: nat, blocks: seq<nat>)
    requires Tiles(h, from, blocks) && |blocks| != 0
    ensures blocks[0] == from && from in h.headers && from % ALIGN == 0 && SizeOf(h, from) % ALIGN == 0
    ensures Tiles(h, EndOf(h, from), blocks[1..])
  {
  }

  lemma NotBehind(h: Heap, from: nat, blocks: seq<nat>, a: nat)
    requires Tiles(h, from, blocks) && a < from
    ensures a !in blocks
  {
    if a in blocks {
      TilesMember(h, from, blocks, a);
    }
  }

  lemma {:induction false} DropMembers(h: Heap, from: nat, blocks: seq<nat>, b: nat)
    requires Tiles(h, from, blocks)
    ensures forall c :: c in Drop(blocks, b) <==> c in blocks && c != b
    decreases |blocks|
  {
    if |blocks| != 0 {
      var rest := blocks[1..];
      assert blocks == [blocks[0]] + rest;
      DropMembers(h, EndOf(h, from), rest, b);
      if blocks[0] == b && b in rest {
        TilesMember(h, EndOf(h, from), rest, b);
      }
    }
  }

  // ----- the free list

  /** The list does not depend on headers that are not on it. */
  lemma {:induction false} LinkedFrame(h: Heap, h': Heap, head: nat, fl: seq<nat>)
    requires Linked(h, head, fl)
    requires forall a :: a in fl ==> a in h'.headers && NextOf(h', a) == NextOf(h, a)
    ensures Linked(h', head, fl)
    decreases |fl|
  {
    if |fl| != 0 {
      assert fl[0] in fl;
      LinkedFrame(h, h', NextOf(h, head), fl[1..]);
    }
  }

  /** The list up to its `i`-th entry, which now points at the list `tail`. */
  lemma {:induction false} LinkedSplice(h: Heap, h': Heap, head: nat, fl: seq<nat>, i: nat, tail: seq<nat>)
    requires Linked(h, head, fl) && Distinct(fl) && i < |fl|
    requires forall j :: 0 <= j <= i ==> fl[j] in h'.headers
    requires forall j :: 0 <= j < i ==> NextOf(h', fl[j]) == NextOf(h, fl[j])
    requires Linked(h', NextOf(h', fl[i]), tail)
    ensures Linked(h', head, fl[..i + 1] + tail)
    decreases i
  {
    var r := fl[..i + 1] + tail;
    if i == 0 {
      assert r[1..] == tail;
    } else {
      forall j | 0 <= j <= i - 1
        ensures fl[1..][j] in h'.headers
        ensures j < i - 1 ==> NextOf(h', fl[1..][j]) == NextOf(h, fl[1..][j])
      {
        assert fl[1..][j] == fl[j + 1];
      }
      LinkedSplice(h, h', NextOf(h, head), fl[1..], i - 1, tail);
      assert r[1..] == fl[1..][..i] + tail;
    }
  }

  lemma {:induction false} LinkedSuffix(h: Heap, head: nat, fl: seq<nat>, i: nat)
    requires Linked(h, head, fl) && i < |fl|
    ensures fl[i] in h.headers && fl[i] != NULL && Linked(h, NextOf(h, fl[i]), fl[i + 1..])
    ensures NextOf(h, fl[i]) == if i + 1 < |fl| then fl[i + 1] else NULL
    decreases i
  {
    if i > 0 {
      LinkedSuffix(h, NextOf(h, head), fl[1..], i - 1);
      assert fl[1..][i..] == fl[i + 1..];
    }
  }

  /** Two readings of one list agree as far as both go. */
  lemma {:induction false} LinkedAgree(h: Heap, head: nat, fl: seq<nat>, h': Heap, fl': seq<nat>, i: nat)
    requires Linked(h, head, fl) && Linked(h', head, fl') && i < |fl|
    requires forall j :: 0 <= j < i ==> NextOf(h', fl[j]) == NextOf(h, fl[j])
    ensures i < |fl'| && fl'[i] == fl[i]
    decreases i
  {
    if i > 0 {
      LinkedAgree(h, head, fl, h', fl', i - 1);
      LinkedSuffix(h, head, fl, i - 1);
      LinkedSuffix(h', head, fl', i - 1);
    }
  }

  // ----- free

  function Put(h: Heap, a: nat, header: Header): Heap {
    h.(headers := h.headers[a := header])
  }

  /** `p` becomes the successor of `prev`, or the head of the list when there is no `prev`. */
  function Relink(h: Heap, prev: nat, p: nat): Heap {
    if prev == NULL then h.(freelist := p) else Put(h, prev, Header(p, SizeOf(h, prev)))
  }

  /** `free`, when the freed block ends where the free entry `other` begins. */
  function AbsorbNext(h: Heap, prev: nat, other: nat, f: nat): Heap {
    Relink(Put(h, f, Header(NextOf(h, other), SizeOf(h, f) + HEADER + SizeOf(h, other))), prev, f)
  }

  /** `free`, when the free entry `other` ends where the freed block begins. */
  function AbsorbPrev(h: Heap, other: nat, f: nat): Heap {
    Put(h, other, Header(NextOf(h, other), SizeOf(h, other) + HEADER + SizeOf(h, f)))
  }

  /** `free` of a block without a free neighbour. */
  function Pushed(h: Heap, f: nat): Heap {
    Put(h, f, Header(h.freelist, SizeOf(h, f))).(freelist := f)
  }

  /** The free entry `other` begins where the block `f` ends, or ends where it begins. */
  predicate Touches(h: Heap, other: nat, f: nat) {
    EndOf(h, f) == other || f == EndOf(h, other)
  }

  function FirstTouching(h: Heap, fl: seq<nat>, f: nat): (i: nat)
    ensures i <= |fl|
    ensures forall j :: 0 <= j < i ==> !Touches(h, fl[j], f)
    ensures i < |fl| ==> Touches(h, fl[i], f)
  {
    if |fl| == 0 || Touches(h, fl[0], f) then 0 else 1 + FirstTouching(h, fl[1..], f)
  }

  /** `free`: one merge with the first free entry that touches the block, or a push. */
  function Freed(h: Heap, fl: seq<nat>, f: nat): Heap {
    var i := FirstTouching(h, fl, f);
    if i == |fl| then Pushed(h, f)
    else if EndOf(h, f) == fl[i] then AbsorbNext(h, PrevOf(fl, i), fl[i], f)
    else AbsorbPrev(h, fl[i], f)
  }

  function PrevOf(fl: seq<nat>, i: nat): nat
    requires i <= |fl|
  {
    if i == 0 then NULL else fl[i - 1]
  }

  lemma AbsorbNextKeeps(h: Heap, blocks: seq<nat>, fl: seq<nat>, live: set<nat>, i: nat, f: nat)
    requires HeapInv(h, blocks, fl, live) && f in live && i < |fl| && EndOf(h, f) == fl[i]
    ensures HeapInv(AbsorbNext(h, PrevOf(fl, i), fl[i], f), Drop(blocks, fl[i]), fl[i := f], live - {f})
  {
    hide Tiles, Linked;
    var prev, other := PrevOf(fl, i), fl[i];
    var h' := AbsorbNext(h, prev, other, f);
    assert f in blocks && other in blocks && f !in fl;
    TilesMember(h, h.start, blocks, f);
    TilesMember(h, h.start, blocks, other);
    LinkedSuffix(h, h.freelist, fl, i);
    if i > 0 {
      LinkedSuffix(h, h.freelist, fl, i - 1);
    }
    TilesMerge(h, h', h.start, blocks, f, other);
    DropMembers(h, h.start, blocks, other);
    AbsorbNextList(h, fl, i, f);
    ReplaceMembers(fl, i, f);
  }

  lemma ReplaceMembers(fl: seq<nat>, i: nat, f: nat)
    requires Distinct(fl) && i < |fl| && f !in fl
    ensures Distinct(fl[i := f])
    ensures forall a :: a in fl[i := f] <==> a == f || (a in fl && a != fl[i])
  {
    var r := fl[i := f];
    forall a ensures a in r <==> a == f || (a in fl && a != fl[i]) {
      if a in fl && a != fl[i] {
        var j :| 0 <= j < |fl| && fl[j] == a;
        assert r[j] == a;
      }
      assert r[i] == f;
    }
  }

  lemma ConsLinked(h: Heap, f: nat, rest: seq<nat>)
    requires f in h.headers && f != NULL && Linked(h, NextOf(h, f), rest)
    ensures Linked(h, f, [f] + rest)
  {
    assert ([f] + rest)[1..] == rest;
  }

  /** The entries behind position `i` are linked as before. */
  lemma RestLinked(h: Heap, h': Heap, fl: seq<nat>, i: nat)
    requires Linked(h, h.freelist, fl) && i < |fl| && h'.headers.Keys >= h.headers.Keys
    requires forall j :: i < j < |fl| ==> NextOf(h', fl[j]) == NextOf(h, fl[j])
    ensures Linked(h', NextOf(h, fl[i]), fl[i + 1..])
  {
    hide Linked;
    var rest := fl[i + 1..];
    LinkedSuffix(h, h.freelist, fl, i);
    forall a | a in rest ensures a in h'.headers && NextOf(h', a) == NextOf(h, a) {
      var j :| 0 <= j < |rest| && rest[j] == a;
      assert a == fl[i + 1 + j];
      LinkedSuffix(h, h.freelist, fl, i + 1 + j);
    }
    LinkedFrame(h, h', NextOf(h, fl[i]), rest);
  }

  /** The list after `p` has taken the place of its entry `i`. */
  lemma EntryReplaced(h: Heap, h': Heap, fl: seq<nat>, i: nat, p: nat)
    requires Linked(h, h.freelist, fl) && Distinct(fl) && i < |fl|
    requires h'.headers.Keys >= h.headers.Keys && p in h'.headers && p != NULL && NextOf(h', p) == NextOf(h, fl[i])
    requires if i == 0 then h'.freelist == p else h'.freelist == h.freelist && NextOf(h', fl[i - 1]) == p
    requires forall a :: a in fl && a != fl[i] && (i == 0 || a != fl[i - 1]) ==> NextOf(h', a) == NextOf(h, a)
    ensures Linked(h', h'.freelist, fl[i := p])
  {
    hide Linked;
    var rest := fl[i + 1..];
    RestLinked(h, h', fl, i);
    ConsLinked(h', p, rest);
    if i == 0 {
      assert fl[i := p] == [p] + rest;
    } else {
      SpliceHeaders(h, h', h.freelist, fl, i - 1);
      LinkedSplice(h, h', h.freelist, fl, i - 1, [p] + rest);
      assert fl[i := p] == fl[..i - 1 + 1] + ([p] + rest);
    }
  }

  lemma AbsorbNextList(h: Heap, fl: seq<nat>, i: nat, f: nat)
    requires Linked(h, h.freelist, fl) && Distinct(fl) && i < |fl| && f !in fl && f in h.headers && f != NULL
    ensures var h' := AbsorbNext(h, PrevOf(fl, i), fl[i], f); Linked(h', h'.freelist, fl[i := f])
  {
    hide Linked;
    if i > 0 {
      LinkedSuffix(h, h.freelist, fl, i - 1);
    }
    EntryReplaced(h, AbsorbNext(h, PrevOf(fl, i), fl[i], f), fl, i, f);
  }

  lemma SpliceHeaders(h: Heap, h': Heap, head: nat, fl: seq<nat>, i: nat)
    requires Linked(h, head, fl) && i < |fl| && h'.headers.Keys >= h.headers.Keys
    ensures forall j :: 0 <= j <= i ==> fl[j] in h'.headers
  {
    forall j | 0 <= j <= i ensures fl[j] in h'.headers {
      LinkedSuffix(h, head, fl, j);
    }
  }

  lemma AbsorbPrevKeeps(h: Heap, blocks: seq<nat>, fl: seq<nat>, live: set<nat>, i: nat, f: nat)
    requires HeapInv(h, blocks, fl, live) && f in live && i < |fl| && EndOf(h, fl[i]) == f
    ensures HeapInv(AbsorbPrev(h, fl[i], f), Drop(blocks, f), fl, live - {f})
  {
    hide Tiles, Linked;
    var other := fl[i];
    var h' := AbsorbPrev(h, other, f);
    assert f in blocks && other in blocks && f !in fl;
    TilesMember(h, h.start, blocks, f);
    TilesMember(h, h.start, blocks, other);
    TilesMerge(h, h', h.start, blocks, other, f);
    DropMembers(h, h.start, blocks, f);
    forall a | a in fl ensures a in h'.headers && NextOf(h', a) == NextOf(h, a) {
      var j :| 0 <= j < |fl| && fl[j] == a;
      LinkedSuffix(h, h.freelist, fl, j);
    }
    LinkedFrame(h, h', h.freelist, fl);
  }

  lemma PushedKeeps(h: Heap, blocks: seq<nat>, fl: seq<nat>, live: set<nat>, f: nat)
    requires HeapInv(h, blocks, fl, live) && f in live
    ensures HeapInv(Pushed(h, f), blocks, [f] + fl, live - {f})
  {
    hide Tiles;
    var h' := Pushed(h, f);
    assert f in blocks && f !in fl;
    TilesMember(h, h.start, blocks, f);
    TilesFrame(h, h', h.start, blocks);
    forall a | a in fl ensures a in h'.headers && NextOf(h', a) == NextOf(h, a) {
      var j :| 0 <= j < |fl| && fl[j] == a;
      LinkedSuffix(h, h.freelist, fl, j);
    }
    LinkedFrame(h, h', h.freelist, fl);
    assert ([f] + fl)[1..] == fl;
  }

  // ----- malloc

  /** An allocated block is one of the blocks, and its size is a multiple of 16. */
  lemma LiveBlock(h: Heap, blocks: seq<nat>, fl: seq<nat>, live: set<nat>, f: nat)
    requires HeapInv(h, blocks, fl, live) && f in live
    ensures f in h.headers && h.headers[f].size % 16 == 0 && f !in fl
  {
    assert f in blocks;
    TilesMember(h, h.start, blocks, f);
  }

  /** The blocks `a` and `f` lie next to each other. */
  ghost predicate Adjacent(h: Heap, a: nat, f: nat) {
    f + HEADER + SizeOf(h, f) == a || a + HEADER + SizeOf(h, a) == f
  }

  /** Entry `i` of the list and the block `f` have become one entry that covers both, and the other entries
      are what they were. */
  ghost predicate Joined(h: Heap, fl: seq<nat>, h': Heap, fl': seq<nat>, f: nat, i: nat)
    requires i < |fl|
  {
    && |fl'| == |fl|
    && fl'[i] == (if f < fl[i] then f else fl[i])
    && SizeOf(h', fl'[i]) == SizeOf(h, f) + HEADER + SizeOf(h, fl[i])
    && forall j :: 0 <= j < |fl| && j != i ==> fl'[j] == fl[j] && SizeOf(h', fl[j]) == SizeOf(h, fl[j])
  }

  /** What a release does to the free list: the block joins the first entry that lies next to it, or becomes
      the head of the list if none does. */
  ghost predicate Coalesced(h: Heap, fl: seq<nat>, h': Heap, fl': seq<nat>, f: nat) {
    if forall j :: 0 <= j < |fl| ==> !Adjacent(h, fl[j], f) then
      fl' == [f] + fl && forall a :: a in fl' ==> SizeOf(h', a) == SizeOf(h, a)
    else
      exists i :: 0 <= i < |fl| && Adjacent(h, fl[i], f) && (forall j :: 0 <= j < i ==> !Adjacent(h, fl[j], f))
                  && Joined(h, fl, h', fl', f, i)
  }

  /** Whichever of the three ways a block is freed in, the heap stays tiled. */
  lemma FreedKeeps(h: Heap, blocks: seq<nat>, fl: seq<nat>, live: set<nat>, f: nat)
    returns (blocks': seq<nat>, fl': seq<nat>)
    requires HeapInv(h, blocks, fl, live) && f in live
    ensures HeapInv(Freed(h, fl, f), blocks', fl', live - {f})
    ensures Coalesced(h, fl, Freed(h, fl, f), fl', f)
  {
    hide HeapInv, AbsorbNext, AbsorbPrev, Pushed, Joined;
    LiveBlock(h, blocks, fl, live, f);
    ListDistinct(h, blocks, fl, live);
    var i := FirstTouching(h, fl, f);
    if i == |fl| {
      PushedKeeps(h, blocks, fl, live, f);
      blocks', fl' := blocks, [f] + fl;
      PushedSizes(h, f);
    } else if EndOf(h, f) == fl[i] {
      AbsorbNextKeeps(h, blocks, fl, live, i, f);
      blocks', fl' := Drop(blocks, fl[i]), fl[i := f];
      NextJoined(h, fl, i, f);
    } else {
      AbsorbPrevKeeps(h, blocks, fl, live, i, f);
      blocks', fl' := Drop(blocks, f), fl;
      PrevJoined(h, fl, i, f);
    }
  }

  lemma ListDistinct(h: Heap, blocks: seq<nat>, fl: seq<nat>, live: set<nat>)
    requires HeapInv(h, blocks, fl, live)
    ensures Distinct(fl)
  {
  }

  lemma PushedSizes(h: Heap, f: nat)
    ensures forall a :: SizeOf(Pushed(h, f), a) == SizeOf(h, a)
  {
  }

  lemma NextJoined(h: Heap, fl: seq<nat>, i: nat, f: nat)
    requires i < |fl| && f !in fl && EndOf(h, f) == fl[i] && Distinct(fl)
    ensures Joined(h, fl, AbsorbNext(h, PrevOf(fl, i), fl[i], f), fl[i := f], f, i)
  {
  }

  lemma PrevJoined(h: Heap, fl: seq<nat>, i: nat, f: nat)
    requires i < |fl| && f !in fl && f == EndOf(h, fl[i]) && Distinct(fl)
    ensures Joined(h, fl, AbsorbPrev(h, fl[i], f), fl, f, i)
  {
  }

  /** The other allocated blocks keep their sizes. */
  lemma FreedSizes(h: Heap, blocks: seq<nat>, fl: seq<nat>, live: set<nat>, f: nat)
    requires HeapInv(h, blocks, fl, live) && f in live
    ensures forall a :: a in live - {f} ==> SizeOf(Freed(h, fl, f), a) == SizeOf(h, a)
  {
    hide Tiles, Linked;
  }

  /** `x ^ 0xF`. */
  function Xor15(x: nat): nat {
    x - x % 16 + (15 - x % 16)
  }

  function RoundUp16(n: nat): nat {
    if n % ALIGN != 0 then n + (ALIGN - n % ALIGN) else n
  }

  /** The test with which `malloc` accepts a free entry. */
  predicate Fits(h: Heap, a: nat, aligned: nat) {
    Xor15(SizeOf(h, a)) >= aligned
  }

  /** `malloc` reusing the free entry `cur`, exactly as written. */
  function Reused(h: Heap, prev: nat, cur: nat, aligned: nat): Heap {
    var size := Xor15(SizeOf(h, cur));
    if size >= aligned && size - aligned > 16 then
      var next := cur + size;
      var left := size - aligned - ALIGN;
      var h1 := Put(h, next, Header(NextOf(h, cur), left));
      var h2 := Put(h1, cur, Header(NextOf(h1, cur), aligned));
      Relink(h2, prev, next)
    else
      var h1 := if prev != NULL then Put(h, prev, Header(NextOf(h, cur), SizeOf(h, prev))) else h;
      Put(h1, cur, Header(NextOf(h1, cur), aligned))
  }

  /** `malloc` taking new memory from the top of the heap. */
  function Bumped(h: Heap, aligned: nat): Heap {
    Put(h, h.top, Header(NULL, aligned)).(top := h.top + (HEADER + aligned) % WORD)
  }

  /** The test accepts exactly the entries that are large enough: sizes are multiples of 16. */
  lemma FitsIff(h: Heap, a: nat, aligned: nat)
    requires SizeOf(h, a) % ALIGN == 0 && aligned % ALIGN == 0
    ensures Fits(h, a, aligned) <==> SizeOf(h, a) >= aligned
    ensures Xor15(SizeOf(h, a)) == SizeOf(h, a) + 15
  {
    var s, n := SizeOf(h, a) / 16, aligned / 16;
    assert SizeOf(h, a) == 16 * s && aligned == 16 * n;
  }

  /** Reusing a free entry keeps the heap sound exactly when the entry is an exact fit that is not the
      head of the list.  A head is not unlinked, and the remainder of a larger entry is put at an
      unaligned address over the end of the block. */
  lemma ReuseSoundIff(h: Heap, blocks: seq<nat>, fl: seq<nat>, live: set<nat>, i: nat, aligned: nat)
    requires HeapInv(h, blocks, fl, live) && i < |fl| && aligned % ALIGN == 0 && Fits(h, fl[i], aligned)
    ensures Sound(Reused(h, PrevOf(fl, i), fl[i], aligned), live + {fl[i]}) <==> (i > 0 && SizeOf(h, fl[i]) == aligned)
  {
    hide Tiles, Linked, Reused;
    assert fl[i] in blocks;
    TilesMember(h, h.start, blocks, fl[i]);
    FitsIff(h, fl[i], aligned);
    if SizeOf(h, fl[i]) != aligned {
      SplitUnsound(h, blocks, fl, live, i, aligned);
    } else if i == 0 {
      HeadUnsound(h, blocks, fl, live, aligned);
    } else {
      ExactSound(h, blocks, fl, live, i, aligned);
    }
  }

  /** What the other two ways of reuse leave.  An exact fit at the head of the list changes nothing at all.
      Of a larger entry the block keeps what was asked for, and the remainder goes on the list in its place:
      one byte too small, and at an address that lies 15 bytes behind the payload. */
  lemma ReuseLeaves(h: Heap, blocks: seq<nat>, fl: seq<nat>, live: set<nat>, i: nat, aligned: nat)
    requires HeapInv(h, blocks, fl, live) && i < |fl| && aligned % ALIGN == 0 && Fits(h, fl[i], aligned)
    ensures var h', cur := Reused(h, PrevOf(fl, i), fl[i], aligned), fl[i];
            var next := cur + SizeOf(h, cur) + 15;
            && (SizeOf(h, cur) == aligned && i == 0 ==> h' == h)
            && (SizeOf(h, cur) != aligned ==>
                 && Linked(h', h'.freelist, fl[i := next])
                 && SizeOf(h', cur) == aligned && SizeOf(h', next) == SizeOf(h, cur) - aligned - 1
                 && forall a :: a in blocks && a != cur ==> SizeOf(h', a) == SizeOf(h, a))
  {
    hide Tiles, Linked;
    var cur, prev := fl[i], PrevOf(fl, i);
    assert cur in blocks;
    TilesMember(h, h.start, blocks, cur);
    FitsIff(h, cur, aligned);
    LinkedSuffix(h, h.freelist, fl, i);
    if i > 0 {
      assert prev in blocks;
      LinkedSuffix(h, h.freelist, fl, i - 1);
    }
    var h' := Reused(h, prev, cur, aligned);
    if SizeOf(h, cur) != aligned {
      Apart(SizeOf(h, cur), aligned);
      Odd(cur, SizeOf(h, cur));
      var next := cur + (SizeOf(h, cur) + 15);
      forall a | a in blocks ensures a != next {
        TilesMember(h, h.start, blocks, a);
      }
      assert forall a :: a in fl ==> a in blocks;
      EntryReplaced(h, h', fl, i, next);
    }
  }

  /** A heap of one free block. */
  function OneFree(size: nat): Heap {
    Heap(4096, 4096 + HEADER + size, 4096, map[4096 := Header(NULL, size)])
  }

  lemma OneFreeInv(size: nat)
    requires size % ALIGN == 0 && 4096 + HEADER + size < WORD
    ensures HeapInv(OneFree(size), [4096], [4096], {})
  {
    var h := OneFree(size);
    assert Tiles(h, EndOf(h, 4096), []);
    assert Linked(h, NULL, []);
  }

  /** The head of the list is not unlinked: 16 bytes asked of a free block of 16. */
  lemma ReuseHeadFails()
    ensures HeapInv(OneFree(16), [4096], [4096], {}) && Fits(OneFree(16), 4096, 16)
    ensures !Sound(Reused(OneFree(16), NULL, 4096, 16), {4096})
  {
    OneFreeInv(16);
    ReuseSoundIff(OneFree(16), [4096], [4096], {}, 0, 16);
    assert {} + {4096} == {4096};
  }

  /** The remainder is put behind the block: 32 bytes asked of a free block of 80 behind the head. */
  lemma ReuseSplitFails()
    ensures var h := Heap(4096, 4208, 4096, map[4096 := Header(4112, 0), 4112 := Header(NULL, 80)]);
            && HeapInv(h, [4096, 4112], [4096, 4112], {}) && !Fits(h, 4096, 32) && Fits(h, 4112, 32)
            && !Sound(Reused(h, 4096, 4112, 32), {4112})
  {
    var h := Heap(4096, 4208, 4096, map[4096 := Header(4112, 0), 4112 := Header(NULL, 80)]);
    assert Tiles(h, EndOf(h, 4112), []) && [4096, 4112][1..] == [4112] && [4112][1..] == [];
    assert Tiles(h, 4112, [4112]);
    assert Linked(h, NULL, []) && Linked(h, 4112, [4112]);
    assert HeapInv(h, [4096, 4112], [4096, 4112], {});
    FitsIff(h, 4096, 32);
    FitsIff(h, 4112, 32);
    ReuseSoundIff(h, [4096, 4112], [4096, 4112], {}, 1, 32);
    assert {} + {4112} == {4112};
  }

  lemma HeadUnsound(h: Heap, blocks: seq<nat>, fl: seq<nat>, live: set<nat>, aligned: nat)
    requires HeapInv(h, blocks, fl, live) && 0 < |fl| && SizeOf(h, fl[0]) == aligned && aligned % ALIGN == 0
    ensures !Sound(Reused(h, NULL, fl[0], aligned), live + {fl[0]})
  {
    hide Tiles, Linked;
    FitsIff(h, fl[0], aligned);
    var h' := Reused(h, NULL, fl[0], aligned);
    LinkedSuffix(h, h.freelist, fl, 0);
    assert h.freelist == fl[0] by {
      LinkedHead(h, h.freelist, fl);
    }
    if Sound(h', live + {fl[0]}) {
      var blocks', fl' :| HeapInv(h', blocks', fl', live + {fl[0]});
      LinkedNonEmpty(h', fl[0], fl');
      assert false;
    }
  }

  lemma SplitUnsound(h: Heap, blocks: seq<nat>, fl: seq<nat>, live: set<nat>, i: nat, aligned: nat)
    requires HeapInv(h, blocks, fl, live) && i < |fl| && aligned % ALIGN == 0 && Fits(h, fl[i], aligned)
    requires SizeOf(h, fl[i]) != aligned && SizeOf(h, fl[i]) % ALIGN == 0
    ensures !Sound(Reused(h, PrevOf(fl, i), fl[i], aligned), live + {fl[i]})
  {
    hide Tiles, Linked;
    var cur, prev := fl[i], PrevOf(fl, i);
    FitsIff(h, cur, aligned);
    Apart(SizeOf(h, cur), aligned);
    assert cur in blocks;
    TilesMember(h, h.start, blocks, cur);
    var next := cur + Xor15(SizeOf(h, cur));
    Odd(cur, SizeOf(h, cur));
    var h' := Reused(h, prev, cur, aligned);
    forall a | a in blocks ensures a != next {
      TilesMember(h, h.start, blocks, a);
    }
    if i > 0 {
      assert prev in blocks;
      LinkedSuffix(h, h.freelist, fl, i - 1);
    }
    if Sound(h', live + {cur}) {
      var blocks', fl' :| HeapInv(h', blocks', fl', live + {cur});
      SplitReaches(h, blocks, fl, live, i, h', fl', next);
      assert next in blocks';
      TilesMember(h', h'.start, blocks', next);
      assert false;
    }
  }

  lemma Apart(size: nat, aligned: nat)
    requires size % ALIGN == 0 && aligned % ALIGN == 0 && size != aligned && size >= aligned
    ensures size + 15 - aligned > 16
  {
    var s, n := size / 16, aligned / 16;
    assert size == 16 * s && aligned == 16 * n;
  }

  lemma Odd(a: nat, size: nat)
    requires a % ALIGN == 0 && size % ALIGN == 0
    ensures (a + (size + 15)) % ALIGN == 15
  {
    var s, n := a / 16, size / 16;
    assert a == 16 * s && size == 16 * n;
    assert a + (size + 15) == 16 * (s + n) + 15;
  }

  /** The free list of the result leads to the misplaced remainder. */
  lemma SplitReaches(h: Heap, blocks: seq<nat>, fl: seq<nat>, live: set<nat>, i: nat, h': Heap, fl': seq<nat>, next: nat)
    requires HeapInv(h, blocks, fl, live) && i < |fl| && next % ALIGN == 15 && next != NULL
    requires if i == 0 then h'.freelist == next else h'.freelist == h.freelist && NextOf(h', fl[i - 1]) == next
    requires forall a :: a in blocks && a != fl[i] && (i > 0 ==> a != fl[i - 1]) ==> NextOf(h', a) == NextOf(h, a)
    requires Linked(h', h'.freelist, fl')
    ensures next in fl'
  {
    hide Tiles, Linked;
    if i == 0 {
      LinkedNonEmpty(h', h'.freelist, fl');
    } else {
      forall j | 0 <= j < i - 1 ensures NextOf(h', fl[j]) == NextOf(h, fl[j]) {
        assert fl[j] in blocks && fl[j] != fl[i] && fl[j] != fl[i - 1];
      }
      LinkedAgree(h, h.freelist, fl, h', fl', i - 1);
      LinkedSuffix(h', h'.freelist, fl', i - 1);
      assert fl'[i] == next;
    }
  }

  lemma LinkedHead(h: Heap, head: nat, fl: seq<nat>)
    requires Linked(h, head, fl) && 0 < |fl|
    ensures fl[0] == head
  {
  }

  lemma LinkedNonEmpty(h: Heap, head: nat, fl: seq<nat>)
    requires Linked(h, head, fl) && head != NULL
    ensures |fl| > 0 && fl[0] == head && head in fl
  {
  }

  lemma ExactSound(h: Heap, blocks: seq<nat>, fl: seq<nat>, live: set<nat>, i: nat, aligned: nat)
    requires HeapInv(h, blocks, fl, live) && 0 < i < |fl| && SizeOf(h, fl[i]) == aligned && aligned % ALIGN == 0
    ensures HeapInv(Reused(h, fl[i - 1], fl[i], aligned), blocks, fl[..i] + fl[i + 1..], live + {fl[i]})
  {
    hide Tiles, Linked;
    var prev, cur := fl[i - 1], fl[i];
    FitsIff(h, cur, aligned);
    var h' := Reused(h, prev, cur, aligned);
    LinkedSuffix(h, h.freelist, fl, i);
    LinkedSuffix(h, h.freelist, fl, i - 1);
    TilesFrame(h, h', h.start, blocks);
    var rest := fl[i + 1..];
    forall a | a in rest ensures a in h'.headers && NextOf(h', a) == NextOf(h, a) {
      var j :| 0 <= j < |rest| && rest[j] == a;
      assert a == fl[i + 1 + j];
      LinkedSuffix(h, h.freelist, fl, i + 1 + j);
    }
    LinkedFrame(h, h', NextOf(h, cur), rest);
    SpliceHeaders(h, h', h.freelist, fl, i - 1);
    LinkedSplice(h, h', h.freelist, fl, i - 1, rest);
    assert fl[..i - 1 + 1] == fl[..i];
    CutMembers(fl, i);
  }

  lemma CutMembers(fl: seq<nat>, i: nat)
    requires Distinct(fl) && i < |fl|
    ensures Distinct(fl[..i] + fl[i + 1..])
    ensures forall a :: a in fl[..i] + fl[i + 1..] <==> a in fl && a != fl[i]
  {
    var r := fl[..i] + fl[i + 1..];
    forall j | 0 <= j < |r| ensures r[j] == fl[if j < i then j else j + 1] {
    }
    forall a ensures a in r <==> a in fl && a != fl[i] {
      if a in fl && a != fl[i] {
        var j :| 0 <= j < |fl| && fl[j] == a;
        assert r[if j < i then j else j - 1] == a;
      }
    }
  }

  /** New memory from the top of the heap keeps the heap sound and has room for the request exactly
      when header and rounded request fit in 32 bits. */
  lemma BumpSoundIff(h: Heap, blocks: seq<nat>, fl: seq<nat>, live: set<nat>, n: nat)
    requires HeapInv(h, blocks, fl, live) && n < WORD && h.top % ALIGN == 0
    requires h.top + HEADER + RoundUp16(n) % WORD < WORD || HEADER + RoundUp16(n) >= WORD
    ensures (Sound(Bumped(h, RoundUp16(n) % WORD), live + {h.top}) && SizeOf(Bumped(h, RoundUp16(n) % WORD), h.top) >= n)
            <==> HEADER + RoundUp16(n) < WORD
  {
    hide Tiles, Linked;
    RoundsUp(n);
    var aligned := RoundUp16(n) % WORD;
    var h' := Bumped(h, aligned);
    if HEADER + RoundUp16(n) < WORD {
      BumpSound(h, blocks, fl, live, aligned);
    } else if RoundUp16(n) < WORD {
      assert aligned == WORD - HEADER;
      if Sound(h', live + {h.top}) {
        var blocks', fl' :| HeapInv(h', blocks', fl', live + {h.top});
        assert h.top in blocks';
        TilesMember(h', h'.start, blocks', h.top);
        assert false;
      }
    }
  }

  /** A request of 2^32 - 1 bytes is rounded to none, and a block without payload is handed out. */
  lemma BumpFails()
    ensures HeapInv(Heap(4096, 4096, NULL, map[]), [], [], {})
    ensures SizeOf(Bumped(Heap(4096, 4096, NULL, map[]), RoundUp16(WORD - 1) % WORD), 4096) == 0
  {
    assert RoundUp16(WORD - 1) == WORD;
  }

  lemma RoundsUp(n: nat)
    requires n < WORD
    ensures n <= RoundUp16(n) <= WORD && RoundUp16(n) < n + ALIGN
    ensures RoundUp16(n) % ALIGN == 0 && RoundUp16(n) % WORD % ALIGN == 0
    ensures HEADER + RoundUp16(n) >= WORD ==> RoundUp16(n) == WORD || RoundUp16(n) == WORD - HEADER
  {
  }

  lemma BumpSound(h: Heap, blocks: seq<nat>, fl: seq<nat>, live: set<nat>, aligned: nat)
    requires HeapInv(h, blocks, fl, live) && h.top % ALIGN == 0 && aligned % ALIGN == 0
    requires h.top + HEADER + aligned < WORD
    ensures HeapInv(Bumped(h, aligned), blocks + [h.top], fl, live + {h.top})
  {
    hide Tiles, Linked;
    var h' := Bumped(h, aligned);
    forall a | a in blocks ensures a in h'.headers && a != h.top {
      TilesMember(h, h.start, blocks, a);
    }
    TilesAppend(h, h', h.start, blocks);
    LinkedFrame(h, h', h.freelist, fl);
  }
}
