/** The layout of src/slub.c as values: which bit of its bitmaps stands for what, and how the bits
    record the owner of every block and the objects handed out. */
module SlubModel {
  import opened Bits
  import opened BitMemory

  const BLOCK_SIZE := 4096
  const BLOCKS_MAX := 32
  const KINDS := 9

  /** `1 << slub_objs_shift[t].shift` */
  function ObjSize(t: nat): nat
    requires t < KINDS
  {
    match t
    case 0 => 8 case 1 => 16 case 2 => 32 case 3 => 64 case 4 => 128
    case 5 => 256 case 6 => 512 case 7 => 1024 case _ => 2048
  }

  lemma {:induction false} SizesAre(t: nat)
    requires t < KINDS
    ensures ObjSize(0) == 8 && (t < 8 ==> ObjSize(t + 1) == 2 * ObjSize(t)) && ObjSize(8) == 2048
    ensures Occupy(t) * ObjSize(t) == 4096
  {}

  /** How many objects fit in a block. */
  function Occupy(t: nat): nat
    requires t < KINDS
  {
    match t
    case 0 => 512 case 1 => 256 case 2 => 128 case 3 => 64 case 4 => 32
    case 5 => 16 case 6 => 8 case 7 => 4 case _ => 2
  }

  lemma {:induction false} OccupyIs(t: nat)
    requires t < KINDS
    ensures Occupy(t) == BLOCK_SIZE / ObjSize(t) && Occupy(t) * ObjSize(t) == BLOCK_SIZE
  {}

  /** The bytes of a use map of that class, and where it starts in the use maps of a block. */
  function Bytes(t: nat): nat
    requires t < KINDS
  {
    match t
    case 0 => 64 case 1 => 32 case 2 => 16 case 3 => 8 case 4 => 4 case 5 => 2 case _ => 1
  }

  function Offset(t: nat): nat
    requires t <= KINDS
  {
    match t
    case 0 => 0 case 1 => 64 case 2 => 96 case 3 => 112 case 4 => 120
    case 5 => 124 case 6 => 126 case 7 => 127 case 8 => 128 case _ => 129
  }

  lemma {:induction false} OffsetIs(t: nat)
    requires t < KINDS
    ensures Bytes(t) == (Occupy(t) + 7) / 8 && Offset(t + 1) == Offset(t) + Bytes(t)
  {}

  /** The use maps of one block. */
  const USEMAP_SIZE := 129

  lemma {:induction false} OffsetOrder(t: nat, u: nat)
    requires t < u <= KINDS
    ensures Offset(t) + Bytes(t) <= Offset(u) <= USEMAP_SIZE
  {}

  /** Object `index` of a block that belongs to class `kind`. */
  datatype Obj = Obj(block: nat, kind: nat, index: nat)

  /** Where it lies, counted from the first block. */
  function Place(o: Obj): nat
    requires o.kind < KINDS
  {
    o.block * BLOCK_SIZE + o.index * ObjSize(o.kind)
  }

  /** Bit `k` of the bitmap of class `t`; the bits before those of class 0 are the top bitmap. */
  function TypeBit(size: nat, t: nat, k: nat): nat {
    8 * (size * (t + 1)) + k
  }

  /** Bit `x` of the use map of class `t` in block `k`. */
  function UseBit(k: nat, t: nat, x: nat): nat
    requires t < KINDS
  {
    8 * (USEMAP_SIZE * k + Offset(t)) + x
  }

  lemma {:induction false} UseBitRange(k: nat, t: nat, x: nat, n: nat)
    requires k < n && t < KINDS && x <= 8 * Bytes(t)
    ensures UseBit(k, t, x) <= 8 * (USEMAP_SIZE * n)
    ensures x < 8 * Bytes(t) ==> UseBit(k, t, x) < 8 * (USEMAP_SIZE * n)
  {
    OffsetOrder(t, KINDS);
  }

  lemma {:induction false} UseBitApart(k: nat, t: nat, x: nat, l: nat, u: nat, y: nat)
    requires t < KINDS && u < KINDS && x < 8 * Bytes(t) && y < 8 * Bytes(u) && UseBit(k, t, x) == UseBit(l, u, y)
    ensures k == l && t == u && x == y
  {
    OffsetOrder(t, KINDS);
    OffsetOrder(u, KINDS);
    if t < u {
      OffsetOrder(t, u);
    } else if u < t {
      OffsetOrder(u, t);
    }
  }

  lemma {:induction false} TypeBitRange(size: nat, t: nat, k: nat)
    requires t < KINDS && k < 8 * size
    ensures 8 * size <= TypeBit(size, t, k) < 8 * (size * (KINDS + 1))
  {
    Rows(size, t + 1, KINDS);
    Rows(size, 1, t + 1);
  }

  lemma {:induction false} Rows(size: nat, a: nat, b: nat)
    requires a <= b
    ensures size * a <= size * b && size * (b + 1) == size * b + size
  {}

  lemma {:induction false} TypeBitOrder(size: nat, t: nat, k: nat, u: nat, l: nat)
    requires k < 8 * size && t < u
    ensures TypeBit(size, t, k) < TypeBit(size, u, l)
  {
    Rows(size, t + 2, u + 1);
    Rows(size, t + 1, t + 1);
  }

  lemma {:induction false} TypeBitApart(size: nat, t: nat, k: nat, u: nat, l: nat)
    requires k < 8 * size && l < 8 * size && TypeBit(size, t, k) == TypeBit(size, u, l)
    ensures t == u && k == l
  {
    if t < u {
      TypeBitOrder(size, t, k, u, l);
    } else if u < t {
      TypeBitOrder(size, u, l, t, k);
    }
  }

  /** The blocks that can be handed out: when the number of blocks is a multiple of eight, the last byte of
      the top bitmap starts full. */
  function Usable(n: nat): nat {
    if n % 8 == 0 && n > 0 then n - 8 else n
  }

  /** The bitmaps say which class owns which block. */
  ghost predicate BlocksOk(bitmap: seq<bv8>, n: nat, size: nat, owner: map<nat, nat>) {
    && n > 0 && size == (n + 7) / 8 && |bitmap| == size * (KINDS + 1)
    && (forall k <- owner :: k < Usable(n) && owner[k] < KINDS)
    && (forall k :: 0 <= k < 8 * size && k < 8 * |bitmap| ==> (BitAt(bitmap, k) <==> k >= Usable(n) || k in owner))
    && (forall t, k :: 0 <= t < KINDS && 0 <= k < 8 * size && TypeBit(size, t, k) < 8 * |bitmap| ==>
          (BitAt(bitmap, TypeBit(size, t, k)) <==> k in owner && owner[k] == t))
  }

  /** The use maps say which objects have been handed out; the bits beyond the last object of a block are set. */
  ghost predicate UsesOk(usemap: seq<bv8>, n: nat, live: set<Obj>) {
    && |usemap| == USEMAP_SIZE * n
    && (forall o <- live :: o.kind < KINDS && o.block < n && o.index < Occupy(o.kind))
    && (forall k, t, x :: 0 <= k < n && 0 <= t < KINDS && 0 <= x < 8 * Bytes(t) && UseBit(k, t, x) < 8 * |usemap| ==>
          (BitAt(usemap, UseBit(k, t, x)) <==> x >= Occupy(t) || Obj(k, t, x) in live))
  }

  /** Every object lies in a block of its own class. */
  ghost predicate Housed(owner: map<nat, nat>, live: set<Obj>) {
    forall o <- live :: o.block in owner && owner[o.block] == o.kind
  }

  /** Block `k` of class `t` has no room left. */
  ghost predicate Full(live: set<Obj>, k: nat, t: nat)
    requires t < KINDS
  {
    forall x :: 0 <= x < Occupy(t) ==> Obj(k, t, x) in live
  }

  ghost predicate OwnedBy(owner: map<nat, nat>, t: nat, k: nat) {
    k in owner && owner[k] == t
  }

  /** The scan for a block of class `t` looks at the first non-zero byte of the bitmap and no further. */
  ghost predicate Reached(owner: map<nat, nat>, t: nat, k: nat) {
    OwnedBy(owner, t, k) && forall j: nat :: OwnedBy(owner, t, j) ==> k / 8 <= j / 8
  }

  /** The object that a search among the blocks of class `t` comes up with: the first free place of the first block
      with room, of those the scan reaches. */
  ghost predicate Served(owner: map<nat, nat>, live: set<Obj>, t: nat, o: Obj)
    requires t < KINDS
  {
    && o.kind == t && Reached(owner, t, o.block) && o.index < Occupy(t) && o !in live
    && (forall y :: 0 <= y < o.index ==> Obj(o.block, t, y) in live)
    && (forall j: nat :: Reached(owner, t, j) && j < o.block ==> Full(live, j, t))
  }

  lemma {:induction false} TypeByte(bitmap: seq<bv8>, n: nat, size: nat, owner: map<nat, nat>, t: nat, i: nat, j: nat)
    requires BlocksOk(bitmap, n, size, owner) && t < KINDS && i < size && j < 8
    ensures size * (t + 1) + i < |bitmap|
    ensures Bit(bitmap[size * (t + 1) + i], j) <==> OwnedBy(owner, t, 8 * i + j)
  {
    TypeBitRange(size, t, 8 * i + j);
    assert TypeBit(size, t, 8 * i + j) / 8 == size * (t + 1) + i;
  }

  lemma {:induction false} TypeByteZero(bitmap: seq<bv8>, n: nat, size: nat, owner: map<nat, nat>, t: nat, i: nat)
    requires BlocksOk(bitmap, n, size, owner) && t < KINDS && i < size
    ensures size * (t + 1) + i < |bitmap|
    ensures bitmap[size * (t + 1) + i] == 0 <==> forall k: nat :: OwnedBy(owner, t, k) ==> k / 8 != i
  {
    TypeByte(bitmap, n, size, owner, t, i, 0);
    var b := bitmap[size * (t + 1) + i];
    Extremes(b);
    if b == 0 {
      forall k: nat | OwnedBy(owner, t, k) ensures k / 8 != i {
        if k / 8 == i {
          TypeByte(bitmap, n, size, owner, t, i, k % 8);
        }
      }
    } else {
      var j :| 0 <= j < 8 && Bit(b, j);
      TypeByte(bitmap, n, size, owner, t, i, j);
      assert OwnedBy(owner, t, 8 * i + j) && (8 * i + j) / 8 == i;
    }
  }

  lemma {:induction false} OwnedSmall(bitmap: seq<bv8>, n: nat, size: nat, owner: map<nat, nat>, t: nat)
    requires BlocksOk(bitmap, n, size, owner)
    ensures forall k: nat :: OwnedBy(owner, t, k) ==> k / 8 < size && k < n
  {}

  // ----- what the two index allocators do to the bits

  lemma {:induction false} UseTaken(usemap: seq<bv8>, usemap': seq<bv8>, n: nat, live: set<Obj>, k: nat, t: nat, r: nat)
    requires UsesOk(usemap, n, live) && k < n && t < KINDS
    requires UseBit(k, t, 0) + 8 * Bytes(t) <= 8 * |usemap| && First(usemap, false, UseBit(k, t, 0), 8 * Bytes(t), r)
    requires OneBit(usemap, usemap', UseBit(k, t, 0) + r, true)
    ensures r < Occupy(t) && Obj(k, t, r) !in live && (forall y :: 0 <= y < r ==> Obj(k, t, y) in live)
    ensures UsesOk(usemap', n, live + {Obj(k, t, r)})
  {
    assert UseBit(k, t, 0) + r == UseBit(k, t, r);
    forall y | 0 <= y < r ensures Obj(k, t, y) in live || y >= Occupy(t) {
      assert UseBit(k, t, 0) + y == UseBit(k, t, y);
    }
    forall l, u, y | 0 <= l < n && 0 <= u < KINDS && 0 <= y < 8 * Bytes(u) && UseBit(l, u, y) < 8 * |usemap|
      ensures BitAt(usemap', UseBit(l, u, y)) <==> y >= Occupy(u) || Obj(l, u, y) in live + {Obj(k, t, r)}
    {
      if UseBit(l, u, y) == UseBit(k, t, r) {
        UseBitApart(l, u, y, k, t, r);
      }
    }
  }

  lemma {:induction false} UseFull(usemap: seq<bv8>, n: nat, live: set<Obj>, k: nat, t: nat)
    requires UsesOk(usemap, n, live) && k < n && t < KINDS
    requires UseBit(k, t, 0) + 8 * Bytes(t) <= 8 * |usemap| && First(usemap, false, UseBit(k, t, 0), 8 * Bytes(t), -1)
    ensures Full(live, k, t)
  {
    forall x | 0 <= x < Occupy(t) ensures Obj(k, t, x) in live {
      assert UseBit(k, t, 0) + x == UseBit(k, t, x);
    }
  }

  lemma {:induction false} BlockTaken(bitmap: seq<bv8>, bitmap': seq<bv8>, bitmap'': seq<bv8>, n: nat, size: nat,
      owner: map<nat, nat>, t: nat, r: nat)
    requires BlocksOk(bitmap, n, size, owner) && t < KINDS && 8 * size <= 8 * |bitmap|
      && First(bitmap, false, 0, 8 * size, r)
    requires OneBit(bitmap, bitmap', r, true) && OneBit(bitmap', bitmap'', TypeBit(size, t, r), true)
    ensures r < Usable(n) && r !in owner && (forall k :: 0 <= k < r ==> k in owner)
    ensures BlocksOk(bitmap'', n, size, owner[r := t])
  {
    assert !BitAt(bitmap, r);
    forall k | 0 <= k < 8 * size && k < 8 * |bitmap|
      ensures BitAt(bitmap'', k) <==> k >= Usable(n) || k in owner[r := t]
    {
      TypeBitRange(size, t, r);
    }
    forall u, k | 0 <= u < KINDS && 0 <= k < 8 * size && TypeBit(size, u, k) < 8 * |bitmap|
      ensures BitAt(bitmap'', TypeBit(size, u, k)) <==> k in owner[r := t] && owner[r := t][k] == u
    {
      TypeBitRange(size, u, k);
      if TypeBit(size, u, k) == TypeBit(size, t, r) {
        TypeBitApart(size, u, k, t, r);
      }
    }
  }

  lemma {:induction false} NoBlock(bitmap: seq<bv8>, n: nat, size: nat, owner: map<nat, nat>)
    requires BlocksOk(bitmap, n, size, owner) && 8 * size <= 8 * |bitmap| && First(bitmap, false, 0, 8 * size, -1)
    ensures forall k :: 0 <= k < Usable(n) ==> k in owner
  {
    assert Usable(n) <= 8 * size;
  }

  // ----- formatting

  lemma {:induction false} SliceBit(s: seq<bv8>, base: nat, len: nat, k: nat)
    requires base + len <= |s| && k < 8 * len
    ensures BitAt(s[base..base + len], k) <==> BitAt(s, 8 * base + k)
  {
    assert (8 * base + k) / 8 == base + k / 8 && (8 * base + k) % 8 == k % 8;
  }

  /** The use maps of the blocks before `i`, and in block `i` those of the classes before `j`, are cleared as far as
      there are objects; all other bits are set. */
  ghost predicate Cleared(usemap: seq<bv8>, n: nat, i: nat, j: nat) {
    |usemap| == USEMAP_SIZE * n && forall k, t, x ::
      0 <= k < n && 0 <= t < KINDS && 0 <= x < 8 * Bytes(t) && UseBit(k, t, x) < 8 * |usemap| ==>
      (BitAt(usemap, UseBit(k, t, x)) <==> x >= Occupy(t) || k > i || (k == i && t >= j))
  }

  lemma {:induction false} ClearedAll(usemap: seq<bv8>, n: nat)
    requires |usemap| == USEMAP_SIZE * n && forall i :: 0 <= i < |usemap| ==> usemap[i] == 0xFF
    ensures Cleared(usemap, n, 0, 0)
  {
    Extremes(0xFF);
  }

  lemma {:induction false} ClearedHere(s: seq<bv8>, s': seq<bv8>, base: nat, len: nat, m: nat, x: nat)
    requires base + len <= |s| == |s'| && x < 8 * len && Shifted(s[base..base + len], s'[base..base + len], m)
    requires x >= m ==> BitAt(s, 8 * base + x - m)
    ensures BitAt(s', 8 * base + x) <==> x >= m
  {
    SliceBit(s', base, len, x);
    if x >= m {
      SliceBit(s, base, len, x - m);
    }
  }

  lemma {:induction false} ClearedBit(s: seq<bv8>, s': seq<bv8>, n: nat, i: nat, j: nat, k: nat, t: nat, x: nat)
    requires Cleared(s, n, i, j) && i < n && j < KINDS && k < n && t < KINDS && x < 8 * Bytes(t)
    requires UseBit(k, t, x) < 8 * |s| && USEMAP_SIZE * i + Offset(j) + Bytes(j) <= |s|
    requires var base, len := USEMAP_SIZE * i + Offset(j), Bytes(j);
      Outside(s, s', base, len) && Shifted(s[base..base + len], s'[base..base + len], Occupy(j))
    ensures BitAt(s', UseBit(k, t, x)) <==> x >= Occupy(t) || k > i || (k == i && t >= j + 1)
  {
    if k == i && t == j {
      if x >= Occupy(j) {
        assert BitAt(s, UseBit(i, j, x - Occupy(j)));
      }
      ClearedHere(s, s', USEMAP_SIZE * i + Offset(j), Bytes(j), Occupy(j), x);
    } else {
      OutsideBit(s, s', i, j, k, t, x);
    }
  }

  lemma {:induction false} ClearedOne(s: seq<bv8>, s': seq<bv8>, n: nat, i: nat, j: nat)
    requires Cleared(s, n, i, j) && i < n && j < KINDS && USEMAP_SIZE * i + Offset(j) + Bytes(j) <= |s|
    requires var base, len := USEMAP_SIZE * i + Offset(j), Bytes(j);
      Outside(s, s', base, len) && Shifted(s[base..base + len], s'[base..base + len], Occupy(j))
    ensures Cleared(s', n, i, j + 1)
  {
    forall k, t, x | 0 <= k < n && 0 <= t < KINDS && 0 <= x < 8 * Bytes(t) && UseBit(k, t, x) < 8 * |s|
      ensures BitAt(s', UseBit(k, t, x)) <==> x >= Occupy(t) || k > i || (k == i && t >= j + 1)
    {
      ClearedBit(s, s', n, i, j, k, t, x);
    }
  }

  lemma {:induction false} OutsideBit(s: seq<bv8>, s': seq<bv8>, i: nat, j: nat, k: nat, t: nat, x: nat)
    requires j < KINDS && t < KINDS && x < 8 * Bytes(t) && !(k == i && t == j) && UseBit(k, t, x) < 8 * |s|
    requires Outside(s, s', USEMAP_SIZE * i + Offset(j), Bytes(j))
    ensures BitAt(s', UseBit(k, t, x)) <==> BitAt(s, UseBit(k, t, x))
  {
    var q := UseBit(k, t, x) / 8;
    assert q == USEMAP_SIZE * k + Offset(t) + x / 8;
    OffsetOrder(t, KINDS);
    OffsetOrder(j, KINDS);
    if t < j {
      OffsetOrder(t, j);
    } else if j < t {
      OffsetOrder(j, t);
    }
    assert !(USEMAP_SIZE * i + Offset(j) <= q < USEMAP_SIZE * i + Offset(j) + Bytes(j));
  }

  lemma {:induction false} ClearedNone(usemap: seq<bv8>, n: nat)
    requires Cleared(usemap, n, n, 0)
    ensures UsesOk(usemap, n, {})
  {}

  lemma {:induction false} ClearedNext(usemap: seq<bv8>, n: nat, i: nat)
    requires Cleared(usemap, n, i, KINDS)
    ensures Cleared(usemap, n, i + 1, 0)
  {}

  lemma {:induction false} TopFresh(bitmap: seq<bv8>, n: nat, size: nat, k: nat)
    requires n > 0 && size == (n + 7) / 8 <= |bitmap| && k < 8 * size
    requires bitmap[size - 1] == 0xFF << (n % 8) && forall i :: 0 <= i < size - 1 ==> bitmap[i] == 0
    ensures BitAt(bitmap, k) <==> k >= Usable(n)
  {
    if k / 8 == size - 1 {
      Extremes(0xFF);
      ShiftUp(0xFF, n % 8, bitmap[size - 1], k % 8);
    } else {
      Extremes(0);
    }
  }

  lemma {:induction false} TypesFresh(bitmap: seq<bv8>, size: nat, t: nat, k: nat)
    requires |bitmap| == size * (KINDS + 1) && t < KINDS && k < 8 * size && TypeBit(size, t, k) < 8 * |bitmap|
    requires forall i :: size <= i < |bitmap| ==> bitmap[i] == 0
    ensures !BitAt(bitmap, TypeBit(size, t, k))
  {
    TypeBitRange(size, t, k);
    Extremes(0);
  }

  /** All bitmaps clear, but for the bits of the top bitmap that stand for no block. */
  lemma {:induction false} BitmapsFresh(bitmap: seq<bv8>, n: nat, size: nat)
    requires n > 0 && size == (n + 7) / 8 && |bitmap| == size * (KINDS + 1) && size <= |bitmap|
    requires bitmap[size - 1] == 0xFF << (n % 8) && forall i :: 0 <= i < |bitmap| && i != size - 1 ==> bitmap[i] == 0
    ensures BlocksOk(bitmap, n, size, map[])
  {
    forall k | 0 <= k < 8 * size ensures BitAt(bitmap, k) <==> k >= Usable(n) {
      TopFresh(bitmap, n, size, k);
    }
    forall t, k | 0 <= t < KINDS && 0 <= k < 8 * size && TypeBit(size, t, k) < 8 * |bitmap|
      ensures !BitAt(bitmap, TypeBit(size, t, k))
    {
      TypesFresh(bitmap, size, t, k);
    }
  }

  // ----- objects do not overlap

  lemma {:induction false} Within(o: Obj)
    requires o.kind < KINDS && o.index < Occupy(o.kind)
    ensures o.block * BLOCK_SIZE <= Place(o) && Place(o) + ObjSize(o.kind) <= (o.block + 1) * BLOCK_SIZE
  {
    OccupyIs(o.kind);
    Rows(ObjSize(o.kind), o.index + 1, Occupy(o.kind));
  }

  /** Two objects that have been handed out have no byte in common. */
  lemma {:induction false} Disjoint(owner: map<nat, nat>, live: set<Obj>, o: Obj, p: Obj)
    requires Housed(owner, live) && o in live && p in live && o != p
    requires o.kind < KINDS && p.kind < KINDS && o.index < Occupy(o.kind) && p.index < Occupy(p.kind)
    ensures Place(o) + ObjSize(o.kind) <= Place(p) || Place(p) + ObjSize(p.kind) <= Place(o)
  {
    if o.block == p.block {
      if o.index < p.index {
        SameBlock(o, p);
      } else {
        SameBlock(p, o);
      }
    } else if o.block < p.block {
      OtherBlock(o, p);
    } else {
      OtherBlock(p, o);
    }
  }

  lemma {:induction false} SameBlock(o: Obj, p: Obj)
    requires o.kind == p.kind < KINDS && o.block == p.block && o.index < p.index
    ensures Place(o) + ObjSize(o.kind) <= Place(p)
  {
    Rows(ObjSize(o.kind), o.index + 1, p.index);
  }

  lemma {:induction false} OtherBlock(o: Obj, p: Obj)
    requires o.kind < KINDS && p.kind < KINDS && o.index < Occupy(o.kind) && p.index < Occupy(p.kind)
      && o.block < p.block
    ensures Place(o) + ObjSize(o.kind) <= Place(p)
  {
    Within(o);
    Within(p);
    Rows(BLOCK_SIZE, o.block + 1, p.block);
  }

  // ----- what slub_alloc does

  /** What `slub_alloc` answers: NULL, an address counted from the first block, or a failing assert. */
  datatype Answer = Null | At(place: nat) | AssertFails

  const SIZE_MAX := 2048

  /** The class of an object: the smallest that is large enough. */
  function Kind(objSize: nat): (t: nat)
    requires 0 < objSize <= SIZE_MAX
    ensures t < KINDS && objSize <= ObjSize(t) && forall u :: 0 <= u < t ==> ObjSize(u) < objSize
  {
    if objSize <= 8 then 0 else if objSize <= 16 then 1 else if objSize <= 32 then 2 else if objSize <= 64 then 3
    else if objSize <= 128 then 4 else if objSize <= 256 then 5 else if objSize <= 512 then 6
    else if objSize <= 1024 then 7 else 8
  }

  /** The scan finds a block with room. */
  ghost predicate Room(owner: map<nat, nat>, live: set<Obj>, t: nat)
    requires t < KINDS
  {
    exists k: nat :: Reached(owner, t, k) && !Full(live, k, t)
  }

  /** The class owns a block in an earlier byte of the bitmap than block `f`. */
  ghost predicate Blocked(owner: map<nat, nat>, t: nat, f: nat) {
    exists k: nat :: OwnedBy(owner, t, k) && k / 8 < f / 8
  }

  /** Block `f` is the first without an owner. */
  ghost predicate FirstUnowned(owner: map<nat, nat>, n: nat, f: nat) {
    f < Usable(n) && f !in owner && forall k :: 0 <= k < f ==> k in owner
  }

  /** The outcome of one call, from owners and objects before to owners and objects after. */
  ghost predicate Allocated(n: nat, owner: map<nat, nat>, live: set<Obj>, t: nat, owner': map<nat, nat>,
      live': set<Obj>, r: Answer, o: Obj)
    requires t < KINDS
  {
    if Room(owner, live, t) then
      owner' == owner && Served(owner, live, t, o) && live' == live + {o} && r == At(Place(o))
    else if forall k :: 0 <= k < Usable(n) ==> k in owner then
      owner' == owner && live' == live && r == Null
    else exists f: nat :: FirstUnowned(owner, n, f) && FromFresh(owner, live, t, f, owner', live', r, o)
  }

  ghost predicate FromFresh(owner: map<nat, nat>, live: set<Obj>, t: nat, f: nat, owner': map<nat, nat>,
      live': set<Obj>, r: Answer, o: Obj)
    requires t < KINDS
  {
    && owner' == owner[f := t]
    && if Blocked(owner, t, f) then live' == live && r == AssertFails
       else o == Obj(f, t, 0) && live' == live + {o} && r == At(Place(o))
  }

  lemma {:induction false} FoundRoom(n: nat, owner: map<nat, nat>, live: set<Obj>, t: nat, o: Obj)
    requires t < KINDS && Served(owner, live, t, o)
    ensures Allocated(n, owner, live, t, owner, live + {o}, At(Place(o)), o)
  {
    assert !Full(live, o.block, t);
  }

  lemma {:induction false} FoundNothing(n: nat, owner: map<nat, nat>, live: set<Obj>, t: nat, o: Obj)
    requires t < KINDS && (forall k: nat :: Reached(owner, t, k) ==> Full(live, k, t))
      && forall k :: 0 <= k < Usable(n) ==> k in owner
    ensures Allocated(n, owner, live, t, owner, live, Null, o)
  {}

  /** A fresh block serves the request at once, unless an earlier byte of the bitmap hides it. */
  lemma {:induction false} FreshServes(n: nat, owner: map<nat, nat>, live: set<Obj>, t: nat, f: nat, o: Obj)
    requires t < KINDS && FirstUnowned(owner, n, f) && Housed(owner, live) && !Room(owner, live, t)
      && Served(owner[f := t], live, t, o)
    ensures o == Obj(f, t, 0) && !Blocked(owner, t, f)
    ensures Allocated(n, owner, live, t, owner[f := t], live + {o}, At(Place(o)), o)
  {
    var owner' := owner[f := t];
    assert forall j: nat :: OwnedBy(owner, t, j) ==> OwnedBy(owner', t, j);
    assert OwnedBy(owner', t, f) && OwnedBy(owner', t, o.block);
    if o.block != f {
      assert Reached(owner, t, o.block);
    }
    assert FromFresh(owner, live, t, f, owner', live + {o}, At(Place(o)), o);
  }

  lemma {:induction false} FreshFails(n: nat, owner: map<nat, nat>, live: set<Obj>, t: nat, f: nat, o: Obj)
    requires t < KINDS && FirstUnowned(owner, n, f) && Housed(owner, live) && !Room(owner, live, t)
    requires forall k: nat :: Reached(owner[f := t], t, k) ==> Full(live, k, t)
    ensures Blocked(owner, t, f) && Allocated(n, owner, live, t, owner[f := t], live, AssertFails, o)
  {
    var owner' := owner[f := t];
    assert Obj(f, t, 0) !in live;
    assert !Full(live, f, t);
    assert !Reached(owner', t, f);
    var k: nat :| OwnedBy(owner', t, k) && k / 8 < f / 8;
    assert OwnedBy(owner, t, k);
    assert FromFresh(owner, live, t, f, owner', live, AssertFails, o);
  }

  // ----- completeness

  /** The blocks of each class lie in one byte of its bitmap. */
  ghost predicate OneByteEach(owner: map<nat, nat>) {
    forall t, j, k :: OwnedBy(owner, t, j) && OwnedBy(owner, t, k) ==> j / 8 == k / 8
  }

  /** ... and blocks were handed out from the first on. */
  ghost predicate Regular(n: nat, owner: map<nat, nat>) {
    OneByteEach(owner) && (forall k <- owner :: k < Usable(n))
      && forall j: nat, k: nat :: k in owner && j < k ==> j in owner
  }

  /** Nothing is left for class `t`: every block that can be handed out has an owner, and those of the class are
      full. */
  ghost predicate Exhausted(n: nat, owner: map<nat, nat>, live: set<Obj>, t: nat)
    requires t < KINDS
  {
    (forall k :: 0 <= k < Usable(n) ==> k in owner) && forall k: nat :: OwnedBy(owner, t, k) ==> Full(live, k, t)
  }

  /** For any number of blocks: as long as the blocks of each class lie in one byte, NULL means that nothing is left. */
  lemma {:induction false} NullExactly(n: nat, owner: map<nat, nat>, live: set<Obj>, t: nat, owner': map<nat, nat>,
      live': set<Obj>, r: Answer, o: Obj)
    requires t < KINDS && Allocated(n, owner, live, t, owner', live', r, o) && OneByteEach(owner)
    ensures r == Null <==> Exhausted(n, owner, live, t)
  {
    assert forall k: nat :: OwnedBy(owner, t, k) <==> Reached(owner, t, k);
  }

  /** Every call whose assert holds keeps it that way. */
  lemma {:induction false} RegularKept(n: nat, owner: map<nat, nat>, live: set<Obj>, t: nat, owner': map<nat, nat>,
      live': set<Obj>, r: Answer, o: Obj)
    requires t < KINDS && Allocated(n, owner, live, t, owner', live', r, o) && Regular(n, owner) && r != AssertFails
    ensures Regular(n, owner')
  {
    if !Room(owner, live, t) && exists k :: 0 <= k < Usable(n) && k !in owner {
      var f: nat :| FirstUnowned(owner, n, f) && FromFresh(owner, live, t, f, owner', live', r, o);
      forall k: nat | OwnedBy(owner, t, k) ensures k / 8 == f / 8 {
        assert k < f;
      }
      forall u, j, k | OwnedBy(owner', u, j) && OwnedBy(owner', u, k) ensures j / 8 == k / 8 {
        assert j != f ==> OwnedBy(owner, u, j);
        assert k != f ==> OwnedBy(owner, u, k);
      }
    }
  }

  /** Once nothing is left for a class, nothing ever is. */
  lemma {:induction false} ExhaustedStays(n: nat, owner: map<nat, nat>, live: set<Obj>, t: nat, owner': map<nat, nat>,
      live': set<Obj>, r: Answer, o: Obj, u: nat)
    requires t < KINDS && u < KINDS && Allocated(n, owner, live, t, owner', live', r, o) && Exhausted(n, owner, live, u)
    ensures Exhausted(n, owner', live', u)
  {}

  /** With a one-byte bitmap the assert never fails. */
  lemma {:induction false} OneByteComplete(n: nat, owner: map<nat, nat>, live: set<Obj>, t: nat,
      owner': map<nat, nat>, live': set<Obj>, r: Answer, o: Obj)
    requires 0 < n <= 7 && t < KINDS && Allocated(n, owner, live, t, owner', live', r, o)
      && forall k <- owner :: k < Usable(n)
    ensures r != AssertFails && (r == Null <==> Exhausted(n, owner, live, t))
  {
    assert OneByteEach(owner);
    NullExactly(n, owner, live, t, owner', live', r, o);
  }

  /** The scan finds no room, a block is left, and the class owns a block in an earlier byte than the first one
      left. */
  ghost predicate Hides(n: nat, owner: map<nat, nat>, live: set<Obj>, t: nat)
    requires t < KINDS
  {
    !Room(owner, live, t) && exists f: nat :: FirstUnowned(owner, n, f) && Blocked(owner, t, f)
  }

  /** In general that is exactly when the assert fails. */
  lemma {:induction false} AssertExactly(n: nat, owner: map<nat, nat>, live: set<Obj>, t: nat, owner': map<nat, nat>,
      live': set<Obj>, r: Answer, o: Obj)
    requires t < KINDS && Allocated(n, owner, live, t, owner', live', r, o)
    ensures r == AssertFails <==> Hides(n, owner, live, t)
  {
    forall f: nat, g: nat | FirstUnowned(owner, n, f) && FirstUnowned(owner, n, g) ensures f == g {
      assert !(f < g) && !(g < f);
    }
  }

  /** The bytes `[a, a + m)` and `[b, b + n)` have nothing in common. */
  predicate Apart(a: nat, m: nat, b: nat, n: nat) {
    a + m <= b || b + n <= a
  }

  /** The bytes lie in one of `n` blocks. */
  predicate InOneBlock(a: nat, m: nat, n: nat) {
    a / BLOCK_SIZE < n && a + m <= (a / BLOCK_SIZE + 1) * BLOCK_SIZE
  }

  /** ... one of those that are handed out. */
  lemma {:induction false} LiveInOneBlock(usemap: seq<bv8>, n: nat, owner: map<nat, nat>, live: set<Obj>, o: Obj,
      m: nat)
    requires UsesOk(usemap, n, live) && Housed(owner, live) && (forall k <- owner :: k < Usable(n))
    requires o in live && o.kind < KINDS && m <= ObjSize(o.kind)
    ensures InOneBlock(Place(o), m, Usable(n)) && Place(o) + m <= Usable(n) * BLOCK_SIZE
  {
    Within(o);
    assert Place(o) / BLOCK_SIZE == o.block;
    Rows(BLOCK_SIZE, o.block + 1, Usable(n));
  }

  lemma {:induction false} LiveApart(usemap: seq<bv8>, n: nat, owner: map<nat, nat>, live: set<Obj>, o: Obj, p: Obj,
      l: nat, m: nat)
    requires UsesOk(usemap, n, live) && Housed(owner, live) && o in live && p in live && o != p
    requires o.kind < KINDS && p.kind < KINDS && l <= ObjSize(o.kind) && m <= ObjSize(p.kind)
    ensures Apart(Place(o), l, Place(p), m)
  {
    Disjoint(owner, live, o, p);
  }

  /** What an answer with an address says of the object. */
  lemma {:induction false} AllocatedNew(n: nat, owner: map<nat, nat>, live: set<Obj>, t: nat, owner': map<nat, nat>,
      live': set<Obj>, r: Answer, o: Obj)
    requires t < KINDS && Allocated(n, owner, live, t, owner', live', r, o) && Housed(owner, live)
    ensures if r.At? then o.kind == t && o !in live && live' == live + {o} && r.place == Place(o) else live' == live
  {}

  /** What the answer says of the blocks. */
  lemma {:induction false} AnswerExactly(n: nat, owner: map<nat, nat>, live: set<Obj>, t: nat, owner': map<nat, nat>,
      live': set<Obj>, r: Answer, o: Obj)
    requires 0 < n && t < KINDS && Allocated(n, owner, live, t, owner', live', r, o)
    requires forall k <- owner :: k < Usable(n)
    ensures r == AssertFails <==> Hides(n, owner, live, t)
    ensures Regular(n, owner) ==> (r == Null <==> Exhausted(n, owner, live, t))
    ensures Regular(n, owner) && r != AssertFails ==> Regular(n, owner')
    ensures n <= 7 ==> r != AssertFails && (r == Null <==> Exhausted(n, owner, live, t))
  {
    AssertExactly(n, owner, live, t, owner', live', r, o);
    if n <= 7 {
      OneByteComplete(n, owner, live, t, owner', live', r, o);
    }
    if Regular(n, owner) {
      NullExactly(n, owner, live, t, owner', live', r, o);
      if r != AssertFails {
        RegularKept(n, owner, live, t, owner', live', r, o);
      }
    }
  }

  /** What an address says of the object: it is new, lies in a block of the smallest class that is large enough, and at
      that address. */
  lemma {:induction false} AnswerMeans(usemap: seq<bv8>, n: nat, owner: map<nat, nat>, live: set<Obj>, objSize: nat,
      owner': map<nat, nat>, live': set<Obj>, r: Answer, o: Obj)
    requires 0 < objSize <= SIZE_MAX && Allocated(n, owner, live, Kind(objSize), owner', live', r, o)
    requires Housed(owner, live) && Housed(owner', live') && UsesOk(usemap, n, live')
    ensures r.At? ==>
      && o !in live && live' == live + {o} && o.block in owner' && owner'[o.block] == o.kind
      && o.kind < 9 && objSize <= ObjSize(o.kind) && (o.kind > 0 ==> ObjSize(o.kind - 1) < objSize)
      && r.place == o.block * 4096 + o.index * ObjSize(o.kind) && (o.index + 1) * ObjSize(o.kind) <= 4096
    ensures !r.At? ==> live' == live
  {
    AllocatedNew(n, owner, live, Kind(objSize), owner', live', r, o);
    if r.At? {
      assert o in live';
      Rows(ObjSize(o.kind), o.index + 1, Occupy(o.kind));
      SizesAre(o.kind);
    }
  }

  // ----- where the blocks lie

  /** `sizeof(slub_t)` on a 64-bit machine. */
  const HEADER := 64

  /** Where header, bitmaps and use maps end. */
  function MapsEnd(n: nat): nat {
    HEADER + (n + 7) / 8 * (KINDS + 1) + USEMAP_SIZE * n
  }

  /** The number of blocks that `slub_format` makes of a region. */
  function BlocksOf(size: nat): nat {
    if size / BLOCK_SIZE >= BLOCKS_MAX then BLOCKS_MAX - 1 else size / BLOCK_SIZE
  }

  /** The blocks start 4096 bytes into the region.  The maps end before them exactly up to 30 blocks; the blocks that
      are handed out lie within the region exactly when it is at least 32 blocks long or their number is a multiple of
      eight. */
  lemma {:induction false} LayoutExactly(size: nat)
    requires size >= 2 * BLOCK_SIZE
    ensures MapsEnd(BlocksOf(size)) <= BLOCK_SIZE <==> BlocksOf(size) <= 30
    ensures BLOCK_SIZE + Usable(BlocksOf(size)) * BLOCK_SIZE <= size <==>
      size >= BLOCKS_MAX * BLOCK_SIZE || BlocksOf(size) % 8 == 0
    ensures MapsEnd(BlocksOf(size)) <= BLOCK_SIZE && BLOCK_SIZE + Usable(BlocksOf(size)) * BLOCK_SIZE <= size <==>
            BlocksOf(size) == 8 || BlocksOf(size) == 16 || BlocksOf(size) == 24
  {
    var n := BlocksOf(size);
    assert size < BLOCKS_MAX * BLOCK_SIZE ==> n * BLOCK_SIZE <= size < (n + 1) * BLOCK_SIZE;
    MapsGrow(n);
  }

  /** Otherwise the last block lies outside: what is handed out from it begins where the region's last whole block
      ends, or later. */
  lemma {:induction false} LastBlockOutside(size: nat, o: Obj)
    requires 2 * BLOCK_SIZE <= size < BLOCKS_MAX * BLOCK_SIZE && o.kind < KINDS && o.block == BlocksOf(size) - 1
    ensures BLOCK_SIZE + Place(o) >= size - size % BLOCK_SIZE
  {}

  lemma {:induction false} MapsGrow(n: nat)
    ensures MapsEnd(n) <= BLOCK_SIZE <==> n <= 30
  {
    assert n <= 30 ==> (n + 7) / 8 <= 4;
    assert n >= 31 ==> (n + 7) / 8 >= 4;
  }

  // ----- objects of 2048 bytes

  /** After `i` allocations of 2048 bytes the first `(i + 1) / 2` blocks belong to the last class ... */
  ghost predicate HalfOwned(owner: map<nat, nat>, i: nat) {
    (forall k: nat :: k in owner <==> k < (i + 1) / 2) && forall k <- owner :: owner[k] == 8
  }

  /** ... and hold two objects each, but for the last if `i` is odd. */
  ghost function Halves(i: nat): set<Obj> {
    set k: nat, x: nat | k < i && x < 2 && 2 * k + x < i :: Obj(k, 8, x)
  }

  lemma {:induction false} HalvesNext(i: nat)
    ensures Halves(i + 1) == Halves(i) + {Obj(i / 2, 8, i % 2)}
  {
    forall o | o in Halves(i + 1) ensures o in Halves(i) + {Obj(i / 2, 8, i % 2)} {
      assert 2 * o.block + o.index == i ==> o.block == i / 2 && o.index == i % 2;
      assert 2 * o.block + o.index < i ==> o.block < i;
    }
  }

  lemma {:induction false} HalfStep(n: nat, i: nat, owner: map<nat, nat>, owner': map<nat, nat>, live': set<Obj>,
      r: Answer, o: Obj)
    requires i < 16 && i / 2 < Usable(n) && HalfOwned(owner, i)
    requires Allocated(n, owner, Halves(i), 8, owner', live', r, o)
    ensures HalfOwned(owner', i + 1) && live' == Halves(i + 1) && r == At(Place(Obj(i / 2, 8, i % 2)))
  {
    var live := Halves(i);
    HalvesNext(i);
    assert forall k: nat :: OwnedBy(owner, 8, k) <==> k < (i + 1) / 2;
    assert forall k: nat :: OwnedBy(owner, 8, k) ==> Reached(owner, 8, k);
    if i % 2 == 1 {
      var b := i / 2;
      assert Obj(b, 8, 1) !in live && Obj(b, 8, 0) in live;
      assert Reached(owner, 8, b) && !Full(live, b, 8);
      forall k: nat | k < b ensures Full(live, k, 8) {}
      assert o.block == b;
      assert o.index == 1;
    } else {
      forall k: nat | k < (i + 1) / 2 ensures Full(live, k, 8) {}
      assert !Room(owner, live, 8);
      assert FirstUnowned(owner, n, i / 2) && i / 2 !in owner;
      assert forall g: nat :: FirstUnowned(owner, n, g) ==> g == i / 2;
    }
  }

  lemma {:induction false} HalfFails(owner: map<nat, nat>, owner': map<nat, nat>, live': set<Obj>, r: Answer, o: Obj)
    requires HalfOwned(owner, 16) && Allocated(9, owner, Halves(16), 8, owner', live', r, o)
    ensures r == AssertFails
  {
    var live := Halves(16);
    forall k: nat | k < 8 ensures Full(live, k, 8) {}
    assert FirstUnowned(owner, 9, 8) && 8 !in owner;
    assert OwnedBy(owner, 8, 0);
    assert Blocked(owner, 8, 8);
    AssertExactly(9, owner, live, 8, owner', live', r, o);
  }
}
