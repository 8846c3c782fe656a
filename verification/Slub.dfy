/** The slub allocator (src/slub.c): blocks are given to size classes, and objects are handed out
    from the blocks of their class. */
module Slub {
  import opened Bits
  import opened BitMemory
  import opened SlubModel

  class Slub {
    const nblocks: nat
    const bitmapSize: nat
    const bitmap: array<bv8>
    const usemap: array<bv8>
    ghost var owner: map<nat, nat>
    ghost var live: set<Obj>

    ghost predicate Valid()
      reads this, bitmap, usemap
    {
      && BlocksOk(bitmap[..], nblocks, bitmapSize, owner) && UsesOk(usemap[..], nblocks, live) && Housed(owner, live)
      && bitmap != usemap
    }

    /** `slub_format` on memory for `nblocks` blocks. */
    constructor (nblocks: nat)
      requires 0 < nblocks < BLOCKS_MAX
      ensures Valid() && this.nblocks == nblocks && owner == map[] && live == {} && fresh(bitmap) && fresh(usemap)
    {
      this.nblocks := nblocks;
      var size := (nblocks + 7) / 8;
      bitmapSize := size;
      bitmap := new bv8[size * (KINDS + 1)];
      usemap := new bv8[USEMAP_SIZE * nblocks];
      owner, live := map[], {};
      new;
      FormatBitmaps();
      FormatUsemaps();
    }

    method FormatBitmaps()
      requires nblocks > 0 && bitmapSize == (nblocks + 7) / 8 && bitmap.Length == bitmapSize * (KINDS + 1)
      modifies bitmap
      ensures BlocksOk(bitmap[..], nblocks, bitmapSize, map[])
    {
      var partBits := nblocks % 8;
      Rows(bitmapSize, 1, KINDS + 1);
      MemSet(bitmap, 0, bitmapSize * (KINDS + 1), 0);
      bitmap[bitmapSize - 1] := 0xFF << partBits;
      BitmapsFresh(bitmap[..], nblocks, bitmapSize);
    }

    /** Every use map starts full, and is shifted until there is a clear bit for every object. */
    method FormatUsemaps()
      requires nblocks > 0 && usemap.Length == USEMAP_SIZE * nblocks
      modifies usemap
      ensures UsesOk(usemap[..], nblocks, {})
    {
      MemSet(usemap, 0, USEMAP_SIZE * nblocks, 0xFF);
      ClearedAll(usemap[..], nblocks);
      for i := 0 to nblocks
        invariant Cleared(usemap[..], nblocks, i, 0)
      {
        FormatBlock(i);
        ClearedNext(usemap[..], nblocks, i);
      }
      ClearedNone(usemap[..], nblocks);
    }

    method FormatBlock(i: nat)
      requires i < nblocks && Cleared(usemap[..], nblocks, i, 0)
      modifies usemap
      ensures Cleared(usemap[..], nblocks, i, KINDS)
    {
      var offset := 0;
      for j := 0 to KINDS
        invariant offset == Offset(j) && Cleared(usemap[..], nblocks, i, j)
      {
        OffsetOrder(j, KINDS);
        OffsetIs(j);
        ghost var s := usemap[..];
        MemShiftLeft(usemap, USEMAP_SIZE * i + offset, Bytes(j), Occupy(j));
        ClearedOne(s, usemap[..], nblocks, i, j);
        offset := offset + Bytes(j);
      }
    }

    /** The sum that `alloc_index_from_usemap` forms. */
    method OffsetOf(t: nat) returns (offset: nat)
      requires t < KINDS
      ensures offset == Offset(t)
    {
      offset := 0;
      for i := 0 to t
        invariant offset == Offset(i)
      {
        OffsetIs(i);
        offset := offset + Bytes(i);
      }
    }

    /** `alloc_index_from_usemap` for block `k`. */
    method IndexFromUsemap(k: nat, t: nat) returns (r: int)
      requires Valid() && k < nblocks && t < KINDS && OwnedBy(owner, t, k)
      modifies usemap, this`live
      ensures Valid()
      ensures if r == -1 then live == old(live) && Full(live, k, t)
        else 0 <= r < Occupy(t) && Obj(k, t, r) !in old(live) && live == old(live) + {Obj(k, t, r)}
             && forall y :: 0 <= y < r ==> Obj(k, t, y) in old(live)
    {
      ghost var s, had := usemap[..], live;
      UseBitRange(k, t, 8 * Bytes(t), nblocks);
      var offset := OffsetOf(t);
      r := TakeClear(usemap, USEMAP_SIZE * k + offset, Bytes(t));
      if r == -1 {
        UseFull(s, nblocks, had, k, t);
      } else {
        UseTaken(s, usemap[..], nblocks, had, k, t, r);
        live := had + {Obj(k, t, r)};
      }
    }

    /** `alloc_index_from_top_bitmap`: the first block without an owner gets one. */
    method IndexFromTop(t: nat) returns (r: int)
      requires Valid() && t < KINDS
      modifies bitmap, this`owner
      ensures Valid()
      ensures if r == -1 then owner == old(owner) && forall k :: 0 <= k < Usable(nblocks) ==> k in owner
        else 0 <= r < Usable(nblocks) && r !in old(owner) && owner == old(owner)[r := t]
             && forall k :: 0 <= k < r ==> k in old(owner)
    {
      ghost var s := bitmap[..];
      Rows(bitmapSize, 1, KINDS + 1);
      r := TakeClear(bitmap, 0, bitmapSize);
      if r == -1 {
        NoBlock(s, nblocks, bitmapSize, owner);
      } else {
        ghost var s' := bitmap[..];
        TypeBitRange(bitmapSize, t, r);
        Rows(bitmapSize, t + 1, KINDS);
        Rows(bitmapSize, t + 1, t + 1);
        MemSetBit(bitmap, bitmapSize * (t + 1), bitmapSize, r, true);
        BlockTaken(s, s', bitmap[..], nblocks, bitmapSize, owner, t, r);
        owner := owner[r := t];
      }
    }

    method ByteIsZero(t: nat, i: nat) returns (b: bool)
      requires Valid() && t < KINDS && i < bitmapSize
      ensures b <==> forall k: nat :: OwnedBy(owner, t, k) ==> k / 8 != i
    {
      TypeByteZero(bitmap[..], nblocks, bitmapSize, owner, t, i);
      b := bitmap[bitmapSize * (t + 1) + i] == 0;
    }

    /** The first byte of the bitmap of class `t` that is not zero, or their number. */
    method FirstByte(t: nat) returns (i: nat)
      requires Valid() && t < KINDS
      ensures i <= bitmapSize && forall k: nat :: OwnedBy(owner, t, k) ==> k / 8 >= i
      ensures i < bitmapSize <==> exists k: nat :: OwnedBy(owner, t, k) && k / 8 == i
    {
      i := 0;
      while i < bitmapSize
        invariant i <= bitmapSize && forall k: nat :: OwnedBy(owner, t, k) ==> k / 8 >= i
      {
        var zero := ByteIsZero(t, i);
        if !zero {
          return;
        }
        i := i + 1;
      }
      OwnedSmall(bitmap[..], nblocks, bitmapSize, owner, t);
    }

    /** `slub_alloc_from_existed`: the scan stops at the first byte of the bitmap that is not zero. */
    method FromExisted(t: nat) returns (r: Answer, ghost o: Obj)
      requires Valid() && t < KINDS
      modifies usemap, this`live
      ensures Valid() && !r.AssertFails?
      ensures r.Null? ==> live == old(live) && forall k: nat :: Reached(owner, t, k) ==> Full(live, k, t)
      ensures r.At? ==> Served(owner, old(live), t, o) && r.place == Place(o) && live == old(live) + {o}
    {
      var i := FirstByte(t);
      if i < bitmapSize {
        r, o := FromByte(t, i);
      } else {
        r, o := Null, Obj(0, 0, 0);
        OwnedSmall(bitmap[..], nblocks, bitmapSize, owner, t);
      }
    }

    /** The blocks of one byte, in order. */
    method FromByte(t: nat, i: nat) returns (r: Answer, ghost o: Obj)
      requires Valid() && t < KINDS && i < bitmapSize
      requires (forall k: nat :: OwnedBy(owner, t, k) ==> k / 8 >= i)
        && exists k: nat :: OwnedBy(owner, t, k) && k / 8 == i
      modifies usemap, this`live
      ensures Valid() && !r.AssertFails?
      ensures r.Null? ==> live == old(live) && forall k: nat :: Reached(owner, t, k) ==> Full(live, k, t)
      ensures r.At? ==> Served(owner, old(live), t, o) && r.place == Place(o) && live == old(live) + {o}
    {
      r, o := Null, Obj(0, 0, 0);
      var j := 0;
      while r.Null? && j < 8
        invariant j <= 8 && Valid() && !r.AssertFails?
        invariant r.Null? ==>
          live == old(live) && forall k: nat :: Reached(owner, t, k) && k < 8 * i + j ==> Full(live, k, t)
        invariant r.At? ==> Served(owner, old(live), t, o) && r.place == Place(o) && live == old(live) + {o}
      {
        r, o := FromBlock(t, 8 * i + j);
        j := j + 1;
      }
      assert forall k: nat :: Reached(owner, t, k) ==> k / 8 == i;
    }

    /** Bit `k % 8` of byte `k / 8` of the bitmap of class `t`. */
    method Owns(t: nat, k: nat) returns (b: bool)
      requires Valid() && t < KINDS && k < 8 * bitmapSize
      ensures b <==> OwnedBy(owner, t, k)
      ensures b ==> k < nblocks
    {
      TypeByte(bitmap[..], nblocks, bitmapSize, owner, t, k / 8, k % 8);
      OwnedSmall(bitmap[..], nblocks, bitmapSize, owner, t);
      var byte := bitmap[bitmapSize * (t + 1) + k / 8];
      b := Bit(byte, k % 8);
    }

    method FromBlock(t: nat, k: nat) returns (r: Answer, ghost o: Obj)
      requires Valid() && t < KINDS && k < 8 * bitmapSize
      requires forall j: nat :: OwnedBy(owner, t, j) ==> j / 8 >= k / 8
      requires forall j: nat :: Reached(owner, t, j) && j < k ==> Full(live, j, t)
      modifies usemap, this`live
      ensures Valid() && !r.AssertFails?
      ensures r.Null? ==> live == old(live) && forall j: nat :: Reached(owner, t, j) && j <= k ==> Full(live, j, t)
      ensures r.At? ==> Served(owner, old(live), t, o) && r.place == Place(o) && live == old(live) + {o}
    {
      r, o := Null, Obj(0, 0, 0);
      var owned := Owns(t, k);
      if owned {
        var index := IndexFromUsemap(k, t);
        if index != -1 {
          o := Obj(k, t, index);
          r := At(Place(Obj(k, t, index)));
        }
      }
    }

    /** The search through the size classes. */
    method KindOf(objSize: nat) returns (t: nat)
      requires 0 < objSize <= SIZE_MAX
      ensures t == Kind(objSize)
    {
      t := 0;
      while t < KINDS - 1 && objSize > ObjSize(t)
        invariant t < KINDS && forall u :: 0 <= u < t ==> ObjSize(u) < objSize
      {
        t := t + 1;
      }
    }

    /** `slub_alloc` */
    method Alloc(objSize: nat) returns (r: Answer, ghost o: Obj)
      requires Valid() && 0 < objSize <= 2048
      modifies bitmap, usemap, this`owner, this`live
      ensures Valid() && Allocated(nblocks, old(owner), old(live), Kind(objSize), owner, live, r, o)
      ensures r.At? ==>
        && o !in old(live) && live == old(live) + {o} && o.block in owner && owner[o.block] == o.kind
        && o.kind < 9 && objSize <= ObjSize(o.kind) && (o.kind > 0 ==> ObjSize(o.kind - 1) < objSize)
        && r.place == o.block * 4096 + o.index * ObjSize(o.kind) && (o.index + 1) * ObjSize(o.kind) <= 4096
      ensures !r.At? ==> live == old(live)
      ensures Regular(nblocks, old(owner)) ==> (r.Null? <==> Exhausted(nblocks, old(owner), old(live), Kind(objSize)))
      ensures Regular(nblocks, old(owner)) && !r.AssertFails? ==> Regular(nblocks, owner)
      ensures r.AssertFails? <==> Hides(nblocks, old(owner), old(live), Kind(objSize))
      ensures nblocks <= 7 ==>
        !r.AssertFails? && (r.Null? <==> Exhausted(nblocks, old(owner), old(live), Kind(objSize)))
    {
      ghost var had, objs := owner, live;
      assert forall k <- owner :: k < Usable(nblocks);
      var t := KindOf(objSize);
      r, o := AllocKind(t);
      AnswerExactly(nblocks, had, objs, t, owner, live, r, o);
      AnswerMeans(usemap[..], nblocks, had, objs, objSize, owner, live, r, o);
    }

    method AllocKind(t: nat) returns (r: Answer, ghost o: Obj)
      requires Valid() && t < KINDS
      modifies bitmap, usemap, this`owner, this`live
      ensures Valid() && Allocated(nblocks, old(owner), old(live), t, owner, live, r, o)
    {
      r, o := FromExisted(t);
      if r.At? {
        FoundRoom(nblocks, owner, old(live), t, o);
      } else {
        r, o := FromNew(t);
      }
    }

    /** No room in the blocks the class has. */
    method FromNew(t: nat) returns (r: Answer, ghost o: Obj)
      requires Valid() && t < KINDS && forall k: nat :: Reached(owner, t, k) ==> Full(live, k, t)
      modifies bitmap, usemap, this`owner, this`live
      ensures Valid() && Allocated(nblocks, old(owner), old(live), t, owner, live, r, o)
    {
      ghost var had, objs := owner, live;
      r, o := Null, Obj(0, 0, 0);
      var block := IndexFromTop(t);
      if block == -1 {
        FoundNothing(nblocks, had, objs, t, o);
      } else {
        r, o := FromExisted(t);
        if r.Null? {
          FreshFails(nblocks, had, objs, t, block, o);
          r := AssertFails;
        } else {
          FreshServes(nblocks, had, objs, t, block, o);
        }
      }
    }
  }

  /** `slub_format`: there must be room for a header block and one more; blocks beyond the 31st are not used. */
  method Format(size: nat) returns (s: Slub?)
    ensures s == null <==> size < 8192
    ensures s != null ==>
      fresh(s) && fresh(s.bitmap) && fresh(s.usemap) && s.Valid() && s.owner == map[] && s.live == {}
    ensures s != null ==> s.nblocks == BlocksOf(size) == if size / 4096 < 32 then size / 4096 else 31
  {
    if size - BLOCK_SIZE < BLOCK_SIZE {
      return null;
    }
    var nblocks := size / BLOCK_SIZE;
    if nblocks >= BLOCKS_MAX {
      nblocks := BLOCKS_MAX - 1;
    }
    s := new Slub(nblocks);
  }

  /** Owners and objects between two allocations. */
  datatype Heap = Heap(owner: map<nat, nat>, live: set<Obj>)

  ghost predicate Stepped(n: nat, h: Heap, t: nat, h': Heap, r: Answer)
    requires t < KINDS
  {
    exists o :: Allocated(n, h.owner, h.live, t, h'.owner, h'.live, r, o)
  }

  /** Each answer is that of one allocation, from one heap to the next. */
  ghost predicate Course(n: nat, heaps: seq<Heap>, sizes: seq<nat>, answers: seq<Answer>)
    requires forall i :: 0 <= i < |sizes| ==> 0 < sizes[i] <= SIZE_MAX
  {
    && |heaps| == |answers| + 1 && |answers| <= |sizes|
    && forall i :: 0 <= i < |answers| ==> Stepped(n, heaps[i], Kind(sizes[i]), heaps[i + 1], answers[i])
  }

  /** Before an assert has failed, NULL is answered exactly when nothing is left for the class. */
  ghost predicate NullExact(n: nat, heaps: seq<Heap>, sizes: seq<nat>, answers: seq<Answer>)
    requires |answers| < |heaps| && |answers| <= |sizes| && forall i :: 0 <= i < |sizes| ==> 0 < sizes[i] <= SIZE_MAX
  {
    forall i :: 0 <= i < |answers| && AssertFails !in answers[..i] ==>
      (answers[i] == Null <==> Exhausted(n, heaps[i].owner, heaps[i].live, Kind(sizes[i])))
  }

  lemma {:induction false} RegularAlong(n: nat, heaps: seq<Heap>, sizes: seq<nat>, answers: seq<Answer>, i: nat)
    requires (forall k :: 0 <= k < |sizes| ==> 0 < sizes[k] <= SIZE_MAX) && Course(n, heaps, sizes, answers)
    requires Regular(n, heaps[0].owner) && i <= |answers| && AssertFails !in answers[..i]
    ensures Regular(n, heaps[i].owner)
  {
    if i == 0 {
    } else {
      assert answers[..i] == answers[..i - 1] + [answers[i - 1]];
      RegularAlong(n, heaps, sizes, answers, i - 1);
      var h, h', t := heaps[i - 1], heaps[i], Kind(sizes[i - 1]);
      assert Stepped(n, h, t, heaps[i - 1 + 1], answers[i - 1]);
      var o :| Allocated(n, h.owner, h.live, t, h'.owner, h'.live, answers[i - 1], o);
      RegularKept(n, h.owner, h.live, t, h'.owner, h'.live, answers[i - 1], o);
    }
  }

  lemma {:induction false} NullAlong(n: nat, heaps: seq<Heap>, sizes: seq<nat>, answers: seq<Answer>)
    requires (forall k :: 0 <= k < |sizes| ==> 0 < sizes[k] <= SIZE_MAX) && Course(n, heaps, sizes, answers)
    requires Regular(n, heaps[0].owner)
    ensures NullExact(n, heaps, sizes, answers)
  {
    forall i | 0 <= i < |answers| && AssertFails !in answers[..i]
      ensures answers[i] == Null <==> Exhausted(n, heaps[i].owner, heaps[i].live, Kind(sizes[i]))
    {
      RegularAlong(n, heaps, sizes, answers, i);
      var h, h', t := heaps[i], heaps[i + 1], Kind(sizes[i]);
      assert Stepped(n, h, t, h', answers[i]);
      var o :| Allocated(n, h.owner, h.live, t, h'.owner, h'.live, answers[i], o);
      NullExactly(n, h.owner, h.live, t, h'.owner, h'.live, answers[i], o);
    }
  }

  lemma {:induction false} CourseGrows(n: nat, heaps: seq<Heap>, sizes: seq<nat>, answers: seq<Answer>, h: Heap,
      r: Answer, o: Obj)
    requires (forall k :: 0 <= k < |sizes| ==> 0 < sizes[k] <= SIZE_MAX) && Course(n, heaps, sizes, answers)
    requires |answers| < |sizes|
    requires var last := heaps[|answers|];
      Allocated(n, last.owner, last.live, Kind(sizes[|answers|]), h.owner, h.live, r, o)
    ensures Course(n, heaps + [h], sizes, answers + [r])
  {
    var heaps', answers' := heaps + [h], answers + [r];
    forall i | 0 <= i < |answers'| ensures Stepped(n, heaps'[i], Kind(sizes[i]), heaps'[i + 1], answers'[i]) {
      if i < |answers| {
        assert Stepped(n, heaps[i], Kind(sizes[i]), heaps[i + 1], answers[i]);
      }
    }
  }

  /** Any sequence of allocations: every object lies within one of the blocks that are handed out, and no two share a
      byte.  `heaps` are the owners and objects in between, so that each answer is what `Allocated` says; until an
      assert fails, and with at most seven blocks none does, NULL is answered exactly when nothing is left for the
      class, and an address otherwise. */
  method AllocAll(s: Slub, sizes: seq<nat>) returns (answers: seq<Answer>, ghost heaps: seq<Heap>)
    requires s.Valid() && forall i :: 0 <= i < |sizes| ==> 0 < sizes[i] <= SIZE_MAX
    modifies s, s.bitmap, s.usemap
    ensures s.Valid() && |answers| == |sizes| && Course(s.nblocks, heaps, sizes, answers)
    ensures heaps[0] == Heap(old(s.owner), old(s.live)) && heaps[|sizes|] == Heap(s.owner, s.live)
    ensures forall i :: 0 <= i < |sizes| && answers[i].At? ==>
      InOneBlock(answers[i].place, sizes[i], Usable(s.nblocks))
        && answers[i].place + sizes[i] <= Usable(s.nblocks) * BLOCK_SIZE
    ensures forall i, j :: 0 <= i < j < |sizes| && answers[i].At? && answers[j].At? ==>
      Apart(answers[i].place, sizes[i], answers[j].place, sizes[j])
    ensures s.nblocks <= 7 ==> AssertFails !in answers
    ensures Regular(s.nblocks, old(s.owner)) ==> NullExact(s.nblocks, heaps, sizes, answers)
    ensures Regular(s.nblocks, old(s.owner)) && AssertFails !in answers ==>
      Regular(s.nblocks, s.owner) && forall i :: 0 <= i < |sizes| && answers[i].Null? ==>
        Exhausted(s.nblocks, s.owner, s.live, Kind(sizes[i]))
  {
    answers := [];
    ghost var objs: seq<Obj> := [];
    ghost var first := Heap(s.owner, s.live);
    heaps := [first];
    for k := 0 to |sizes|
      invariant s.Valid() && |answers| == k
      invariant Progress(s.nblocks, first, heaps, sizes, answers, objs, Heap(s.owner, s.live))
    {
      ghost var h := Heap(s.owner, s.live);
      var r;
      ghost var o;
      r, o := s.Alloc(sizes[k]);
      ProgressNext(s.nblocks, first, heaps, sizes, answers, objs, h, Heap(s.owner, s.live), r, o);
      answers, objs, heaps := answers + [r], objs + [o], heaps + [Heap(s.owner, s.live)];
    }
    RecordApart(s.usemap[..], s.nblocks, s.owner, s.live, answers, objs, sizes);
    if Regular(s.nblocks, first.owner) {
      NullAlong(s.nblocks, heaps, sizes, answers);
    }
  }

  /** The allocations so far: the objects behind the answers, and the heaps in between. */
  ghost predicate Progress(n: nat, first: Heap, heaps: seq<Heap>, sizes: seq<nat>, answers: seq<Answer>, objs: seq<Obj>,
      h: Heap)
    requires forall i :: 0 <= i < |sizes| ==> 0 < sizes[i] <= SIZE_MAX
  {
    && Record(answers, objs, sizes, h.live) && Course(n, heaps, sizes, answers)
    && heaps[0] == first && heaps[|answers|] == h && (n <= 7 ==> AssertFails !in answers)
    && (Regular(n, first.owner) ==> Spent(answers, sizes, n, h.owner, h.live))
  }

  lemma {:induction false} ProgressNext(n: nat, first: Heap, heaps: seq<Heap>, sizes: seq<nat>, answers: seq<Answer>,
      objs: seq<Obj>, h: Heap, h': Heap, r: Answer, o: Obj)
    requires forall i :: 0 <= i < |sizes| ==> 0 < sizes[i] <= SIZE_MAX
    requires Progress(n, first, heaps, sizes, answers, objs, h) && |answers| < |sizes| && Housed(h.owner, h.live)
    requires Allocated(n, h.owner, h.live, Kind(sizes[|answers|]), h'.owner, h'.live, r, o)
    requires n <= 7 ==> r != AssertFails
    ensures Progress(n, first, heaps + [h'], sizes, answers + [r], objs + [o], h')
  {
    AllocatedNew(n, h.owner, h.live, Kind(sizes[|answers|]), h'.owner, h'.live, r, o);
    RecordNext(answers, objs, sizes, h.live, h'.live, r, o);
    CourseGrows(n, heaps, sizes, answers, h', r, o);
    if Regular(n, first.owner) {
      SpentNext(answers, sizes, n, h.owner, h.live, h'.owner, h'.live, r, o);
    }
  }

  /** Unless an assert has failed, NULL was answered only where nothing is left. */
  ghost predicate Spent(answers: seq<Answer>, sizes: seq<nat>, n: nat, owner: map<nat, nat>, live: set<Obj>)
    requires |answers| <= |sizes| && forall i :: 0 <= i < |sizes| ==> 0 < sizes[i] <= SIZE_MAX
  {
    AssertFails !in answers ==>
      Regular(n, owner) && forall i :: 0 <= i < |answers| && answers[i].Null? ==>
        Exhausted(n, owner, live, Kind(sizes[i]))
  }

  lemma {:induction false} SpentNext(answers: seq<Answer>, sizes: seq<nat>, n: nat, owner: map<nat, nat>,
      live: set<Obj>,
                                     owner': map<nat, nat>, live': set<Obj>, r: Answer, o: Obj)
    requires |answers| < |sizes| && (forall i :: 0 <= i < |sizes| ==> 0 < sizes[i] <= SIZE_MAX)
    requires Spent(answers, sizes, n, owner, live)
      && Allocated(n, owner, live, Kind(sizes[|answers|]), owner', live', r, o)
    ensures Spent(answers + [r], sizes, n, owner', live')
  {
    var t := Kind(sizes[|answers|]);
    if AssertFails !in answers + [r] {
      assert forall x <- answers :: x in answers + [r];
      assert r in answers + [r];
      NullExactly(n, owner, live, t, owner', live', r, o);
      RegularKept(n, owner, live, t, owner', live', r, o);
      forall i | 0 <= i < |answers + [r]| && (answers + [r])[i].Null?
        ensures Exhausted(n, owner', live', Kind(sizes[i]))
      {
        ExhaustedStays(n, owner, live, t, owner', live', r, o, Kind(sizes[i]));
      }
    }
  }

  /** The objects behind the answers so far. */
  ghost predicate Record(answers: seq<Answer>, objs: seq<Obj>, sizes: seq<nat>, live: set<Obj>) {
    && |objs| == |answers| <= |sizes|
    && (forall i :: 0 <= i < |answers| && answers[i].At? ==>
          objs[i] in live && objs[i].kind < KINDS && answers[i].place == Place(objs[i])
            && sizes[i] <= ObjSize(objs[i].kind))
    && (forall i, j :: 0 <= i < j < |answers| && answers[i].At? && answers[j].At? ==> objs[i] != objs[j])
  }

  lemma {:induction false} RecordNext(answers: seq<Answer>, objs: seq<Obj>, sizes: seq<nat>, live: set<Obj>,
      live': set<Obj>, r: Answer, o: Obj)
    requires Record(answers, objs, sizes, live) && |answers| < |sizes|
    requires if r.At? then o !in live && live' == live + {o} && o.kind < KINDS && r.place == Place(o)
      && sizes[|answers|] <= ObjSize(o.kind)
             else live' == live
    ensures Record(answers + [r], objs + [o], sizes, live')
  {}

  lemma {:induction false} RecordApart(usemap: seq<bv8>, n: nat, owner: map<nat, nat>, live: set<Obj>,
                                       answers: seq<Answer>, objs: seq<Obj>, sizes: seq<nat>)
    requires UsesOk(usemap, n, live) && Housed(owner, live) && (forall k <- owner :: k < Usable(n))
      && Record(answers, objs, sizes, live)
    ensures forall i :: 0 <= i < |answers| && answers[i].At? ==>
      InOneBlock(answers[i].place, sizes[i], Usable(n)) && answers[i].place + sizes[i] <= Usable(n) * BLOCK_SIZE
    ensures forall i, j :: 0 <= i < j < |answers| && answers[i].At? && answers[j].At? ==>
      Apart(answers[i].place, sizes[i], answers[j].place, sizes[j])
  {
    forall i | 0 <= i < |answers| && answers[i].At?
      ensures InOneBlock(answers[i].place, sizes[i], Usable(n)) && answers[i].place + sizes[i] <= Usable(n) * BLOCK_SIZE
    {
      LiveInOneBlock(usemap, n, owner, live, objs[i], sizes[i]);
    }
    forall i, j | 0 <= i < j < |answers| && answers[i].At? && answers[j].At?
      ensures Apart(answers[i].place, sizes[i], answers[j].place, sizes[j])
    {
      LiveApart(usemap, n, owner, live, objs[i], objs[j], sizes[i], sizes[j]);
    }
  }

  /** With eight blocks nothing can ever be allocated. */
  method EightBlocks(sizes: seq<nat>) returns (answers: seq<Answer>)
    requires forall i :: 0 <= i < |sizes| ==> 0 < sizes[i] <= SIZE_MAX
    ensures |answers| == |sizes| && forall i :: 0 <= i < |sizes| ==> answers[i] == Null
  {
    var s := new Slub(8);
    answers := [];
    for k := 0 to |sizes|
      invariant s.Valid() && s.nblocks == 8 && fresh(s) && fresh(s.bitmap) && fresh(s.usemap)
      invariant |answers| == k && forall i :: 0 <= i < k ==> answers[i] == Null
    {
      ghost var owner, live := s.owner, s.live;
      assert Regular(8, owner);
      var r;
      ghost var o;
      r, o := s.Alloc(sizes[k]);
      answers := answers + [r];
    }
  }

  /** The first `m` objects of 2048 bytes, two in a block. */
  method Halve(s: Slub, m: nat)
    requires s.Valid() && s.owner == map[] && s.live == {} && m <= 16 && (m + 1) / 2 <= Usable(s.nblocks)
    modifies s, s.bitmap, s.usemap
    ensures s.Valid() && HalfOwned(s.owner, m) && s.live == Halves(m)
  {
    assert HalfOwned(s.owner, 0) && s.live == Halves(0);
    for i := 0 to m
      invariant s.Valid() && HalfOwned(s.owner, i) && s.live == Halves(i)
    {
      ghost var owner := s.owner;
      var r;
      ghost var o;
      r, o := s.Alloc(SIZE_MAX);
      HalfStep(s.nblocks, i, owner, s.owner, s.live, r, o);
    }
  }

  /** Two blocks of memory: the third object of 2048 bytes lies behind the region. */
  method TwoBlocks() returns (r: Answer)
    ensures r.At? && BLOCK_SIZE + r.place == 2 * BLOCK_SIZE
  {
    var s := Format(2 * BLOCK_SIZE);
    r := Third(s);
  }

  method Third(s: Slub) returns (r: Answer)
    requires s.Valid() && s.nblocks == 2 && s.owner == map[] && s.live == {}
    modifies s, s.bitmap, s.usemap
    ensures r == At(Place(Obj(1, 8, 0)))
  {
    Halve(s, 2);
    ghost var owner := s.owner;
    ghost var o;
    r, o := s.Alloc(SIZE_MAX);
    HalfStep(2, 2, owner, s.owner, s.live, r, o);
  }

  /** With more than one byte in the bitmaps the assert can fail: nine blocks, and seventeen objects of 2048 bytes. */
  method NineBlocks() returns (r: Answer)
    ensures r == AssertFails
  {
    var s := new Slub(9);
    Halve(s, 16);
    ghost var owner := s.owner;
    ghost var o;
    r, o := s.Alloc(SIZE_MAX);
    HalfFails(owner, s.owner, s.live, r, o);
  }
}
