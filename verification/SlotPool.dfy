/** The fixed pool of sockets (src/resource.c): a free list threaded through the slots, a counter
    of slots in use, and, as in a debug build, an ownership bit in every slot. */
module SlotPool {
  import opened IntrusiveList
  import opened Sequences

  /** Which handlers and event types a socket has been given. */
  datatype Kind = Unused | Listen | Cmnct

  /** `hixo_socket_t` without its list words; `owned` is the low bit of `mp_belong`. */
  datatype Slot = Slot(owned: bool, fd: int, kind: Kind, stale: bool, readable: bool, writable: bool, close: bool)

  /** A slot as `calloc` leaves it. */
  const ZERO := Slot(false, 0, Unused, false, false, false, false)

  /** `hixo_create_socket`: every field is set anew and the stale bit flips. */
  function CreateSocket(s: Slot, fd: int, kind: Kind): Slot
    requires !kind.Unused?
  {
    s.(fd := fd, kind := kind, stale := !s.stale, readable := false, writable := false, close := false)
  }

  /** Memory has a word for every list head and two for every slot. */
  ghost predicate Mapped(w: Words, n: nat) {
    && {FreeList, Connections, PostedEvents} <= w.Keys
    && (forall i :: 0 <= i < n ==> Node(i) in w && PostedNode(i) in w)
  }

  /** The pool as a value: the free list leads through exactly the slots whose ownership bit is clear. */
  ghost predicate PoolOk(w: Words, slots: seq<Slot>, free: seq<Addr>, used: int) {
    && Mapped(w, |slots|) && Chain(w, FreeList, free)
    && (forall a <- free :: a.Node? && a.slot < |slots|)
    && (forall i :: 0 <= i < |slots| ==> (slots[i].owned <==> Node(i) !in free))
    && used == |slots| - |free|
  }

  ghost function Own(slots: seq<Slot>, i: nat, owned: bool): seq<Slot>
    requires i < |slots|
  {
    slots[i := slots[i].(owned := owned)]
  }

  /** Memory with the words of `n` fresh slots, and an empty free list. */
  function Zeroed(w: Words, n: nat): Words {
    w + (map i: nat | i < n :: Node(i) := Null) + (map i: nat | i < n :: PostedNode(i) := Null) + map[FreeList := Null]
  }

  lemma {:induction false} ZeroedHeads(w: Words, n: nat)
    requires Mapped(w, 0)
    ensures var w' := Zeroed(w, n);
      Mapped(w', n) && w'[FreeList] == Null && w'[Connections] == w[Connections] && w'[PostedEvents] == w[PostedEvents]
  {}

  /** The free list of a new pool: the last slot first. */
  ghost function Descending(n: nat): seq<Addr> {
    if n == 0 then [] else [Node(n - 1)] + Descending(n - 1)
  }

  lemma {:induction false} DescendingMembers(n: nat)
    ensures |Descending(n)| == n
    ensures forall a <- Descending(n) :: a.Node? && a.slot < n
    ensures forall i :: 0 <= i < n ==> Node(i) in Descending(n)
  {
    if n == 0 {
    } else {
      DescendingMembers(n - 1);
      var rest := Descending(n - 1);
      assert Descending(n) == [Node(n - 1)] + rest;
      assert forall i :: 0 <= i < n ==> Node(i) == Node(n - 1) || Node(i) in rest;
    }
  }

  ghost predicate AllZero(slots: seq<Slot>) {
    forall i :: 0 <= i < |slots| ==> slots[i] == ZERO
  }

  lemma {:induction false} NewOk(w: Words, slots: seq<Slot>, free: seq<Addr>)
    requires AllZero(slots) && free == Descending(|slots|) && Mapped(w, |slots|) && Chain(w, FreeList, free)
    ensures PoolOk(w, slots, free, 0)
  {
    DescendingMembers(|slots|);
  }

  lemma {:induction false} TakeOk(w: Words, w': Words, slots: seq<Slot>, free: seq<Addr>, used: int, i: nat)
    requires PoolOk(w, slots, free, used) && free != [] && free[0] == Node(i)
    requires Chain(w', FreeList, free[1..]) && w'.Keys == w.Keys
    ensures i < |slots| && !slots[i].owned
    ensures PoolOk(w', Own(slots, i, true), free[1..], used + 1)
  {
    ChainDistinct(w, FreeList, free);
    assert free[0] in free;
    assert forall a <- free :: a == free[0] || a in free[1..];
  }

  lemma {:induction false} FreeFirst(w: Words, slots: seq<Slot>, free: seq<Addr>, used: int)
    requires PoolOk(w, slots, free, used)
    ensures w[FreeList] == Null <==> free == []
    ensures free != [] ==>
      w[FreeList] == free[0] && free[0] in w && free[0].Node? && free[0].slot < |slots| && !slots[free[0].slot].owned
    ensures free != [] ==> free[0] in free && Without(free, free[0]) == free[1..] && free == [free[0]] + free[1..]
  {
    ChainDistinct(w, FreeList, free);
    assert free != [] ==> free[0] in free;
  }

  lemma {:induction false} GiveOk(w: Words, w': Words, slots: seq<Slot>, free: seq<Addr>, used: int, i: nat)
    requires PoolOk(w, slots, free, used) && i < |slots| && slots[i].owned
    requires Chain(w', FreeList, [Node(i)] + free) && w'.Keys == w.Keys
    ensures PoolOk(w', Own(slots, i, false), [Node(i)] + free, used - 1)
  {}

  // ----- the counter counts

  ghost function OwnedBelow(slots: seq<Slot>, k: nat): set<nat>
    requires k <= |slots|
  {
    set i: nat | i < k && slots[i].owned
  }

  ghost function FreeBelow(free: seq<Addr>, k: nat): set<Addr> {
    set a <- free | a.Node? && a.slot < k
  }

  lemma {:induction false} DistinctSize(s: seq<Addr>)
    requires Distinct(s)
    ensures |(set a <- s)| == |s|
  {
    if s == [] {
    } else {
      DistinctSize(s[1..]);
      assert (set a <- s) == {s[0]} + (set a <- s[1..]);
    }
  }

  lemma {:induction false} SplitAt(w: Words, slots: seq<Slot>, free: seq<Addr>, used: int, k: nat)
    requires PoolOk(w, slots, free, used) && 0 < k <= |slots|
    ensures k - 1 !in OwnedBelow(slots, k - 1) && Node(k - 1) !in FreeBelow(free, k - 1)
    ensures OwnedBelow(slots, k) == OwnedBelow(slots, k - 1) + (if slots[k - 1].owned then {k - 1} else {})
    ensures FreeBelow(free, k) == FreeBelow(free, k - 1) + (if slots[k - 1].owned then {} else {Node(k - 1)})
  {
    assert forall a <- free :: a.slot == k - 1 ==> a == Node(k - 1);
  }

  lemma {:induction false} SplitSize<A, B>(a: set<A>, b: set<B>, x: A, y: B, first: bool)
    requires x !in a && y !in b
    ensures |a + (if first then {x} else {})| + |b + (if first then {} else {y})| == |a| + |b| + 1
  {
    assert a + {} == a && b + {} == b;
  }

  lemma {:induction false} SplitBelow(w: Words, slots: seq<Slot>, free: seq<Addr>, used: int, k: nat)
    requires PoolOk(w, slots, free, used) && k <= |slots|
    ensures |OwnedBelow(slots, k)| + |FreeBelow(free, k)| == k
  {
    if k == 0 {
      assert OwnedBelow(slots, 0) == {} && FreeBelow(free, 0) == {};
    } else {
      SplitBelow(w, slots, free, used, k - 1);
      SplitAt(w, slots, free, used, k);
      SplitSize(OwnedBelow(slots, k - 1), FreeBelow(free, k - 1), k - 1, Node(k - 1), slots[k - 1].owned);
    }
  }

  /** `m_used` is the number of slots that are in somebody's hands. */
  lemma {:induction false} UsedCounts(w: Words, slots: seq<Slot>, free: seq<Addr>, used: int)
    requires PoolOk(w, slots, free, used)
    ensures used == |OwnedBelow(slots, |slots|)|
  {
    SplitBelow(w, slots, free, used, |slots|);
    ChainDistinct(w, FreeList, free);
    DistinctSize(free);
    assert FreeBelow(free, |slots|) == (set a <- free);
  }

  /** Handing a slot out, or taking it back, adds it to those in somebody's hands, or removes it. */
  lemma {:induction false} OwnedAfter(slots: seq<Slot>, i: nat)
    requires i < |slots|
    ensures OwnedBelow(Own(slots, i, true), |slots|) == OwnedBelow(slots, |slots|) + {i}
    ensures OwnedBelow(Own(slots, i, false), |slots|) == OwnedBelow(slots, |slots|) - {i}
  {}

  /** `hixo_resource_t`, together with the slots it hands out; the list words lie in `store`. */
  class Pool {
    const store: Store
    var start: bool
    var slots: seq<Slot>
    ghost var free: seq<Addr>
    var used: int
    var capacity: int

    constructor (store: Store)
      ensures this.store == store && !start && slots == [] && free == [] && used == 0 && capacity == 0
    {
      this.store := store;
      start, slots, free, used, capacity := false, [], [], 0, 0;
    }

    ghost predicate Ok()
      reads this, store
    {
      capacity == |slots| && PoolOk(store.words, slots, free, used)
    }

    /** The slots in somebody's hands: what the pool is, seen from outside. */
    ghost function Outstanding(): set<nat>
      reads this`slots
    {
      OwnedBelow(slots, |slots|)
    }

    /** `create_resource`; `memory` is whether `calloc` succeeds.  The elements are slots, whatever their size, and the
        offset of the list word in them is part of `Node`. */
    method CreateResource(count: nat, elemtSize: nat, memory: bool) returns (ok: bool)
      requires Mapped(store.words, 0)
      modifies this, store
      ensures ok <==> count > 0 && elemtSize > 0 && !old(start) && memory
      ensures !ok ==> unchanged(this) && unchanged(store)
      ensures ok ==> start && Ok() && |slots| == count && AllZero(slots) && used == 0
      ensures ok ==>
        store.words[Connections] == old(store.words)[Connections]
        && store.words[PostedEvents] == old(store.words)[PostedEvents]
    {
      if count == 0 || elemtSize == 0 {
        return false;
      }
      if start {
        return false;
      }
      if !memory {
        return false;
      }
      Format(count);
      ok := true;
    }

    method Format(count: nat)
      requires Mapped(store.words, 0)
      modifies this, store
      ensures start && Ok() && |slots| == count && AllZero(slots) && used == 0 && free == Descending(count)
      ensures store.words[Connections] == old(store.words)[Connections]
        && store.words[PostedEvents] == old(store.words)[PostedEvents]
    {
      Clear(count);
      FillFree(count);
      NewOk(store.words, slots, free);
      used := 0;
      capacity := count;
    }

    /** The zeroed memory of `count` slots. */
    method Clear(count: nat)
      requires Mapped(store.words, 0)
      modifies this`start, this`slots, this`free, store
      ensures start && |slots| == count && AllZero(slots) && free == []
      ensures Mapped(store.words, count) && store.words[FreeList] == Null
      ensures store.words[Connections] == old(store.words)[Connections]
        && store.words[PostedEvents] == old(store.words)[PostedEvents]
    {
      ZeroedHeads(store.words, count);
      start := true;
      slots := seq(count, i => ZERO);
      store.words := Zeroed(store.words, count);
      free := [];
    }

    /** The loop that threads every slot into the free list. */
    method FillFree(count: nat)
      requires Mapped(store.words, count) && store.words[FreeList] == Null && free == []
      modifies this`free, store
      ensures free == Descending(count) && Chain(store.words, FreeList, free)
        && store.words.Keys == old(store.words).Keys
      ensures store.words[Connections] == old(store.words)[Connections]
        && store.words[PostedEvents] == old(store.words)[PostedEvents]
    {
      for i := 0 to count
        invariant free == Descending(i) && Chain(store.words, FreeList, free)
          && store.words.Keys == old(store.words).Keys
        invariant store.words[Connections] == old(store.words)[Connections]
          && store.words[PostedEvents] == old(store.words)[PostedEvents]
      {
        DescendingMembers(i);
        store.AddNode(FreeList, Node(i), free);
        free := [Node(i)] + free;
      }
    }

    /** `alloc_resource`: NULL exactly when every slot is in use, else a slot that was in nobody's hands. */
    method Alloc() returns (r: Addr)
      requires Ok()
      modifies this`slots, this`free, this`used, store
      ensures Ok()
      ensures r.Null? <==> old(used) == capacity
      ensures r.Null? ==> unchanged(this) && unchanged(store)
      ensures !r.Null? ==>
        r.Node? && r.slot < |slots| && !old(slots)[r.slot].owned && old(free) == [r] + free && used == old(used) + 1
      ensures !r.Null? ==> slots == Own(old(slots), r.slot, true) && store.words[r] == Null
      ensures r.Null? <==> |old(Outstanding())| == capacity
      ensures !r.Null? ==> r.slot !in old(Outstanding()) && Outstanding() == old(Outstanding()) + {r.slot}
      ensures Elsewhere(old(store.words), store.words, FreeList, old(free), Null)
    {
      FreeFirst(store.words, slots, free, used);
      UsedCounts(store.words, slots, free, used);
      if store.words[FreeList] == Null {
        return Null;
      }
      OwnedAfter(slots, free[0].slot);
      r := Take();
    }

    method Take() returns (r: Addr)
      requires Ok() && free != [] && store.words[FreeList] == free[0] && free[0] in store.words && free[0].Node?
        && free[0].slot < |slots|
      requires free[0] in free && Without(free, free[0]) == free[1..]
      modifies this`slots, this`free, this`used, store
      ensures Ok()
      ensures r == old(free)[0] && free == old(free)[1..] && used == old(used) + 1
        && slots == Own(old(slots), r.slot, true)
      ensures store.words[r] == Null && Elsewhere(old(store.words), store.words, FreeList, old(free), Null)
    {
      ghost var w := store.words;
      r := store.words[FreeList];
      var removed := store.RmNode(FreeList, r, free);
      assert removed;
      TakeOk(w, store.words, slots, free, used, r.slot);
      free := free[1..];
      used := used + 1;
      assert !slots[r.slot].owned;
      slots := slots[r.slot := slots[r.slot].(owned := true)];
    }

    /** `free_resource`; a null or foreign element is refused. */
    method Free(p: Addr)
      requires Ok() && (p.Node? && p.slot < |slots| ==> slots[p.slot].owned)
      modifies this`slots, this`free, this`used, store
      ensures Ok()
      ensures !(p.Node? && p.slot < |slots|) ==> unchanged(this) && unchanged(store)
      ensures p.Node? && p.slot < |slots| ==>
        free == [p] + old(free) && used == old(used) - 1 && slots == Own(old(slots), p.slot, false)
      ensures p.Node? && p.slot < |slots| ==> Outstanding() == old(Outstanding()) - {p.slot}
      ensures Elsewhere(old(store.words), store.words, FreeList, old(free), p)
    {
      if !p.Node? {
        return;
      }
      if p.slot >= |slots| {
        return;
      }
      ghost var w := store.words;
      OwnedAfter(slots, p.slot);
      store.AddNode(FreeList, p, free);
      GiveOk(w, store.words, slots, free, used, p.slot);
      free := [p] + free;
      used := used - 1;
      assert slots[p.slot].owned;
      slots := slots[p.slot := slots[p.slot].(owned := false)];
    }

    /** `destroy_resource` */
    method Destroy()
      requires FreeList in store.words
      modifies this, store
      ensures slots == [] && free == [] && !start && used == 0 && capacity == 0
        && store.words == old(store.words)[FreeList := Null]
    {
      start, slots := false, [];
      store.words, free := store.words[FreeList := Null], [];
      used := 0;
      capacity := 0;
    }
  }
}
