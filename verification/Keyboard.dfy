/** The key ring: what a reader that calls `kb_getkey` again and again gets of the keys that arrive. */
module Keyboard {
  import WaitProtocol

  const KEY_RING_SIZE: nat := WaitProtocol.KEY_RING_SIZE

  type Keycode = nat

  /** The ring holds the last 128 keys, the newest at the index. */
  ghost predicate Holds(ring: seq<Keycode>, keys: seq<Keycode>) {
    |ring| == KEY_RING_SIZE && forall n :: 0 <= n < |keys| && |keys| - n <= KEY_RING_SIZE ==> SlotHolds(ring, keys, n)
  }

  ghost predicate SlotHolds(ring: seq<Keycode>, keys: seq<Keycode>, n: nat)
    requires |ring| == KEY_RING_SIZE && n < |keys|
  {
    ring[(n + 1) % KEY_RING_SIZE] == keys[n]
  }

  class KeyRing {
    const ring: array<Keycode>
    var index: nat
    // All keys that have arrived.
    ghost var keys: seq<Keycode>

    ghost predicate Valid()
      reads this, ring
    {
      ring.Length == KEY_RING_SIZE && index == |keys| % KEY_RING_SIZE && Holds(ring[..], keys)
    }

    /** `kb_early_init` */
    constructor ()
      ensures Valid() && keys == [] && fresh(ring)
    {
      ring := new Keycode[KEY_RING_SIZE](_ => 0);
      index := 0;
      keys := [];
    }

    /** The end of `__kb_emit_keycode`. */
    method Emit(keycode: Keycode)
      requires Valid()
      modifies this`index, this`keys, ring
      ensures Valid() && keys == old(keys) + [keycode]
    {
      hide SlotHolds;
      ghost var was, before := ring[..], keys;
      index := (index + 1) % KEY_RING_SIZE;
      NextIndex(|keys|);
      ring[index] := keycode;
      keys := keys + [keycode];
      assert ring[..] == was[(|before| + 1) % KEY_RING_SIZE := keycode];
      HoldsMore(was, before, keycode);
    }

    /** `_key_ring_idx` */
    method Index() returns (idx: nat)
      requires Valid()
      ensures idx == |keys| % KEY_RING_SIZE
    {
      idx := index;
    }

    /** What `kb_getkey` returns when its last look gave the index `cmp`, after `looked` keys: the newest of
        those, unless a whole turn of the ring has arrived since. */
    method KeyAt(cmp: nat, ghost looked: nat) returns (key: Keycode)
      requires Valid() && 0 < looked <= |keys| && cmp == looked % KEY_RING_SIZE
      requires |keys| - looked < KEY_RING_SIZE
      ensures key == keys[looked - 1]
    {
      assert SlotHolds(ring[..], keys, looked - 1);
      key := ring[cmp];
    }
  }

  lemma NextIndex(n: nat)
    ensures (n % KEY_RING_SIZE + 1) % KEY_RING_SIZE == (n + 1) % KEY_RING_SIZE
  {
  }

  /** Within one turn of the ring indices differ. */
  lemma OtherSlot(m: nat, n: nat)
    requires m < n < m + KEY_RING_SIZE
    ensures m % KEY_RING_SIZE != n % KEY_RING_SIZE
  {
  }

  lemma HoldsMore(ring: seq<Keycode>, keys: seq<Keycode>, k: Keycode)
    requires Holds(ring, keys)
    ensures Holds(ring[(|keys| + 1) % KEY_RING_SIZE := k], keys + [k])
  {
    var ring', keys' := ring[(|keys| + 1) % KEY_RING_SIZE := k], keys + [k];
    forall n | 0 <= n < |keys'| && |keys'| - n <= KEY_RING_SIZE ensures SlotHolds(ring', keys', n) {
      if n < |keys| {
        assert SlotHolds(ring, keys, n);
        OtherSlot(n + 1, |keys| + 1);
      }
    }
  }

  // ----- calls of a reader

  /** A call of `kb_getkey`: how many keys had arrived when it noted the index, and when it last looked. */
  datatype Call = Call(noted: nat, looked: nat)

  /** The last look ends the wait. */
  predicate Ends(c: Call) {
    WaitProtocol.Condition(WaitProtocol.Key(c.noted % KEY_RING_SIZE % 256), 0, c.looked % KEY_RING_SIZE)
  }

  lemma SlotOf(x: nat, k: int, t: nat)
    requires x == KEY_RING_SIZE * k + t && t < KEY_RING_SIZE
    ensures x % KEY_RING_SIZE == t
  {
  }

  /** Two counts have the same slot when they are whole turns apart. */
  lemma SameSlotIff(m: nat, n: nat)
    requires m <= n
    ensures m % KEY_RING_SIZE == n % KEY_RING_SIZE <==> (n - m) % KEY_RING_SIZE == 0
  {
    var a, b, c := m / KEY_RING_SIZE, n / KEY_RING_SIZE, (n - m) / KEY_RING_SIZE;
    assert m == KEY_RING_SIZE * a + m % KEY_RING_SIZE;
    if m % KEY_RING_SIZE == n % KEY_RING_SIZE {
      assert n == KEY_RING_SIZE * b + n % KEY_RING_SIZE;
      SlotOf(n - m, b - a, 0);
    }
    if (n - m) % KEY_RING_SIZE == 0 {
      assert n - m == KEY_RING_SIZE * c;
      SlotOf(n, c + a, m % KEY_RING_SIZE);
    }
  }

  /** A byte holds every index. */
  lemma IndexInByte(n: nat)
    ensures n % KEY_RING_SIZE % 256 == n % KEY_RING_SIZE
  {
  }

  /** The wait for a key ends unless none, or a multiple of 128, have arrived since the call. */
  lemma EndsIff(c: Call)
    requires c.noted <= c.looked
    ensures Ends(c) <==> (c.looked - c.noted) % KEY_RING_SIZE != 0
  {
    IndexInByte(c.noted);
    IndexInByte(c.looked);
    SameSlotIff(c.noted, c.looked);
  }

  /** The calls of one reader, one after the other, until `total` keys have arrived. */
  ghost predicate Session(calls: seq<Call>, total: nat) {
    && (forall i :: 0 <= i < |calls| ==> calls[i].noted < calls[i].looked <= total && Ends(calls[i]))
    && forall i :: 0 <= i < |calls| - 1 ==> calls[i].looked <= calls[i + 1].noted
  }

  /** What the reader gets: at each call the newest key. */
  function Delivered(keys: seq<Keycode>, calls: seq<Call>): (d: seq<Keycode>)
    requires forall i :: 0 <= i < |calls| ==> 0 < calls[i].looked <= |keys|
    ensures |d| == |calls|
  {
    seq(|calls|, i requires 0 <= i < |calls| => keys[calls[i].looked - 1])
  }

  /** The keys that arrive from the first note to the last look. */
  function Arrived(keys: seq<Keycode>, calls: seq<Call>): seq<Keycode>
    requires |calls| > 0 && calls[0].noted <= calls[|calls| - 1].looked <= |keys|
  {
    keys[calls[0].noted..calls[|calls| - 1].looked]
  }

  /** Whatever is typed, the reader gets it all, each key once and in order. */
  ghost predicate Faithful(calls: seq<Call>, total: nat)
    requires Session(calls, total) && |calls| > 0
  {
    forall keys: seq<Keycode> :: |keys| == total ==> FaithfulFor(calls, keys)
  }

  ghost predicate FaithfulFor(calls: seq<Call>, keys: seq<Keycode>)
    requires Session(calls, |keys|) && |calls| > 0
  {
    Ordered(calls, |keys|, 0, |calls| - 1);
    Delivered(keys, calls) == Arrived(keys, calls)
  }

  lemma {:induction false} Ordered(calls: seq<Call>, total: nat, i: nat, j: nat)
    requires Session(calls, total) && i <= j < |calls|
    ensures calls[i].looked <= calls[j].looked && calls[i].noted <= calls[j].looked
    decreases j
  {
    if i < j {
      Ordered(calls, total, i, j - 1);
      assert calls[j - 1].looked <= calls[j - 1 + 1].noted;
    }
  }

  /** Exactly one key arrives during each call, and none between two calls. */
  ghost predicate OneEach(calls: seq<Call>) {
    && (forall i :: 0 <= i < |calls| ==> calls[i].looked == calls[i].noted + 1)
    && forall i :: 0 <= i < |calls| - 1 ==> calls[i + 1].noted == calls[i].looked
  }

  lemma {:induction false} OneEachAt(calls: seq<Call>, i: nat)
    requires OneEach(calls) && i < |calls|
    ensures calls[i].looked == calls[0].noted + i + 1
  {
    if i > 0 {
      OneEachAt(calls, i - 1);
      assert calls[i - 1 + 1].noted == calls[i - 1].looked;
    }
  }

  /** A reader gets every key once and in order exactly when one key arrives during each call and none
      between two calls: `kb_getkey` notes the index afresh, so keys that arrive between calls are lost,
      and of several during one call only the last is returned. */
  lemma DeliveryIff(calls: seq<Call>, total: nat)
    requires Session(calls, total) && |calls| > 0
    ensures Faithful(calls, total) <==> OneEach(calls)
  {
    hide Ends;
    Ordered(calls, total, 0, |calls| - 1);
    if OneEach(calls) {
      forall keys: seq<Keycode> | |keys| == total ensures FaithfulFor(calls, keys) {
        OneEachAt(calls, |calls| - 1);
        forall i | 0 <= i < |calls| ensures Delivered(keys, calls)[i] == Arrived(keys, calls)[i] {
          OneEachAt(calls, i);
        }
      }
    }
    if Faithful(calls, total) {
      FaithfulLooks(calls, total);
      LooksOneEach(calls, total);
    }
  }

  /** The keys 0, 1, 2, and so on show which keys the reader gets. */
  lemma FaithfulLooks(calls: seq<Call>, total: nat)
    requires Session(calls, total) && |calls| > 0 && Faithful(calls, total)
    ensures forall i :: 0 <= i < |calls| ==> calls[i].looked == calls[0].noted + i + 1
  {
    hide Ends;
    Ordered(calls, total, 0, |calls| - 1);
    var first := calls[0].noted;
    var keys := seq(total, i requires 0 <= i < total => i);
    assert FaithfulFor(calls, keys);
    var delivered, arrived := Delivered(keys, calls), Arrived(keys, calls);
    forall i | 0 <= i < |calls| ensures calls[i].looked == first + i + 1 {
      assert delivered[i] == arrived[i];
      assert delivered[i] == keys[calls[i].looked - 1];
      assert arrived[i] == keys[first + i];
    }
  }

  lemma LooksOneEach(calls: seq<Call>, total: nat)
    requires Session(calls, total) && |calls| > 0
    requires forall i :: 0 <= i < |calls| ==> calls[i].looked == calls[0].noted + i + 1
    ensures OneEach(calls)
  {
    hide Ends;
    forall i | 0 <= i < |calls| - 1 ensures calls[i + 1].noted == calls[i].looked {
      assert calls[i].looked <= calls[i + 1].noted < calls[i + 1].looked;
    }
    forall i | 0 <= i < |calls| ensures calls[i].looked == calls[i].noted + 1 {
      if i > 0 {
        assert calls[i - 1 + 1].noted == calls[i - 1].looked;
      }
    }
  }

  /** Three keys and two calls: the key that arrives between the calls is lost. */
  lemma KeyBetweenCallsLost()
    ensures var calls := [Call(0, 1), Call(2, 3)];
            Session(calls, 3) && !Faithful(calls, 3)
  {
    var calls := [Call(0, 1), Call(2, 3)];
    EndsIff(calls[0]);
    EndsIff(calls[1]);
    DeliveryIff(calls, 3);
    assert calls[0 + 1].noted != calls[0].looked;
  }
}
