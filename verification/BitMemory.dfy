/** The memory helpers of src/slub.c: shifting, testing, setting and searching bits in a byte buffer. */
module BitMemory {
  import opened Powers
  import opened Bits

  // ----- mem_shift_left

  /** The bytes of the shifted run, as the loops leave them: `e` whole bytes and `p` bits further up. */
  function ShiftedByte(s: seq<bv8>, e: nat, p: nat, i: nat): bv8
    requires i < |s| && p < 8
  {
    if i < e then 0 else if i == e then s[0] << p else Mixed(s[i - e], s[i - e - 1], p)
  }

  /** A byte moved up by `p`, and the bits that come in from the byte below. */
  function Mixed(b: bv8, below: bv8, p: nat): bv8
    requires p < 8
  {
    (b << p) | (below >> (8 - p))
  }

  lemma {:induction false} JoinGiven(up: bv8, down: bv8, m: bv8, j: nat, u: bool, d: bool)
    requires j < 8 && m == up | down && (Bit(up, j) <==> u) && (Bit(down, j) <==> d)
    ensures Bit(m, j) <==> u || d
  {
    Join(up, down, j);
  }

  lemma {:induction false} TwoBytes(x: bv8, y: bv8, p: nat, up: bv8, down: bv8, m: bv8, j: nat)
    requires p < 8 && j < 8 && up == x << p && down == y >> (8 - p) && m == up | down
    ensures Bit(m, j) <==> FromBelow(x, p, j) || FromAbove(y, 8 - p, j)
  {
    MoveUp(x, p, up, j);
    MoveDown(y, 8 - p, down, j);
    JoinGiven(up, down, m, j, FromBelow(x, p, j), FromAbove(y, 8 - p, j));
  }

  lemma {:induction false} MixedBit(x: bv8, y: bv8, p: nat, j: nat)
    requires p < 8 && j < 8
    ensures Bit(Mixed(x, y, p), j) <==> FromBelow(x, p, j) || FromAbove(y, 8 - p, j)
  {
    TwoBytes(x, y, p, x << p, y >> (8 - p), Mixed(x, y, p), j);
  }

  lemma {:induction false} NoBit(j: nat)
    requires j < 8
    ensures !Bit(0, j)
  {
    Extremes(0);
  }

  lemma {:induction false} Borrow(k: nat, n: nat)
    requires k >= n
    ensures k / 8 >= n / 8
    ensures if k % 8 >= n % 8 then (k - n) / 8 == k / 8 - n / 8 && (k - n) % 8 == k % 8 - n % 8
            else (k - n) / 8 == k / 8 - n / 8 - 1 && (k - n) % 8 == k % 8 + 8 - n % 8
  {}

  lemma {:induction false} ShiftedByteBit(s: seq<bv8>, e: nat, p: nat, i: nat, j: nat)
    requires i < |s| && p < 8 && j < 8
    ensures Bit(ShiftedByte(s, e, p, i), j) <==>
      (i >= e && FromBelow(s[i - e], p, j)) || (i > e && FromAbove(s[i - e - 1], 8 - p, j))
  {
    if i < e {
      NoBit(j);
    } else if i == e {
      assert s[i - e] == s[0];
      MoveUp(s[0], p, ShiftedByte(s, e, p, i), j);
    } else {
      MixedBit(s[i - e], s[i - e - 1], p, j);
    }
  }

  lemma {:induction false} BytesShifted(s: seq<bv8>, t: seq<bv8>, n: nat)
    requires |t| == |s| && forall i :: 0 <= i < |s| ==> t[i] == ShiftedByte(s, n / 8, n % 8, i)
    ensures Shifted(s, t, n)
  {
    forall k | 0 <= k < 8 * |s| ensures BitAt(t, k) <==> k >= n && BitAt(s, k - n) {
      ShiftedByteBit(s, n / 8, n % 8, k / 8, k % 8);
      if k >= n {
        Borrow(k, n);
      }
    }
  }

  /** Nothing outside the run `[from, from + len)` has changed. */
  ghost predicate Outside(s: seq<bv8>, t: seq<bv8>, from: nat, len: nat) {
    |t| == |s| && forall i :: 0 <= i < |s| && !(from <= i < from + len) ==> t[i] == s[i]
  }

  method MemSet(a: array<bv8>, base: nat, len: nat, value: bv8)
    requires base + len <= a.Length
    modifies a
    ensures Outside(old(a[..]), a[..], base, len) && forall i :: base <= i < base + len ==> a[i] == value
  {
    for i := 0 to len
      invariant forall j :: 0 <= j < a.Length ==> a[j] == if base <= j < base + i then value else old(a[j])
    {
      a[base + i] := value;
    }
  }

  ghost predicate BytesMoved(s: seq<bv8>, t: seq<bv8>, base: nat, len: nat, e: nat) {
    && Outside(s, t, base, len)
    && (forall j :: base <= j < base + e && j < |t| ==> t[j] == 0)
    && (forall j :: base + e <= j < base + len && j < |t| ==> t[j] == s[j - e])
  }

  ghost predicate BitsMoved(s: seq<bv8>, t: seq<bv8>, base: nat, len: nat, e: nat, p: nat)
    requires p < 8
  {
    && |t| == |s| && base + e < |s| && t[base + e] == s[base + e] << p
    && (forall j :: 0 <= j < |s| && (j < base + e || base + len <= j) ==> t[j] == s[j])
    && (forall j :: base + e < j < base + len && j < |s| ==> t[j] == Mixed(s[j], s[j - 1], p))
  }

  lemma {:induction false} MovedAbove(s: seq<bv8>, t: seq<bv8>, u: seq<bv8>, base: nat, len: nat, e: nat, p: nat,
      j: nat)
    requires base + len <= |s| && p < 8 && BytesMoved(s, t, base, len, e) && BitsMoved(t, u, base, len, e, p)
    requires base + e < j < base + len
    ensures u[j] == Mixed(s[j - e], s[j - e - 1], p)
  {
    assert t[j] == s[j - e] && t[j - 1] == s[j - 1 - e];
  }

  lemma {:induction false} MovedOutside(s: seq<bv8>, t: seq<bv8>, u: seq<bv8>, base: nat, len: nat, e: nat, p: nat)
    requires base + len <= |s| && e < len && p < 8 && BytesMoved(s, t, base, len, e) && BitsMoved(t, u, base, len, e, p)
    ensures Outside(s, u, base, len)
    ensures forall j :: base <= j < base + e ==> u[j] == 0
    ensures u[base + e] == s[base] << p
  {}

  lemma {:induction false} BothMoved(s: seq<bv8>, t: seq<bv8>, u: seq<bv8>, base: nat, len: nat, e: nat, p: nat)
    requires base + len <= |s| && e < len && p < 8 && BytesMoved(s, t, base, len, e) && BitsMoved(t, u, base, len, e, p)
    ensures Outside(s, u, base, len)
    ensures forall j :: base <= j < base + len ==> u[j] == ShiftedByte(s[base..base + len], e, p, j - base)
  {
    MovedOutside(s, t, u, base, len, e, p);
    forall j | base <= j < base + len ensures u[j] == ShiftedByte(s[base..base + len], e, p, j - base) {
      if j > base + e {
        MovedAbove(s, t, u, base, len, e, p, j);
      }
    }
  }

  /** The bytes move up by `e`. */
  method MoveBytes(a: array<bv8>, base: nat, len: nat, e: nat)
    requires base + len <= a.Length && 0 < e < len
    modifies a
    ensures BytesMoved(old(a[..]), a[..], base, len, e)
  {
    var i := len - e - 1;
    while i >= 0
      invariant -1 <= i < len - e
      invariant forall j :: 0 <= j < a.Length ==>
        a[j] == if base + i + e < j < base + len then old(a[j - e]) else old(a[j])
    {
      a[base + i + e] := a[base + i];
      i := i - 1;
    }
    MemSet(a, base, e, 0);
  }

  method MixByte(a: array<bv8>, i: nat, p: nat)
    requires 0 < i < a.Length && p < 8
    modifies a
    ensures a[..] == old(a[..])[i := Mixed(old(a[i]), old(a[i - 1]), p)]
  {
    a[i] := a[i] << p;
    a[i] := a[i] | (a[i - 1] >> (8 - p));
  }

  /** Each byte from `e` on takes in the high bits of the one below it. */
  method MoveBits(a: array<bv8>, base: nat, len: nat, e: nat, p: nat)
    requires base + len <= a.Length && e < len && p < 8
    modifies a
    ensures BitsMoved(old(a[..]), a[..], base, len, e, p)
  {
    ghost var s := a[..];
    var i := len - 1;
    while i > e
      invariant e <= i < len
      invariant forall j :: 0 <= j < a.Length && (j <= base + i || base + len <= j) ==> a[j] == s[j]
      invariant forall j :: base + i < j < base + len ==> a[j] == Mixed(s[j], s[j - 1], p)
    {
      MixByte(a, base + i, p);
      i := i - 1;
    }
    a[base + e] := a[base + e] << p;
  }

  method ShiftBytes(a: array<bv8>, base: nat, len: nat, n: nat)
    requires base + len <= a.Length && len > 0
    modifies a
    ensures forall j :: base <= j < base + len ==> a[j] == ShiftedByte(old(a[base..base + len]), n / 8, n % 8, j - base)
    ensures Outside(old(a[..]), a[..], base, len)
  {
    var emptyBytes, partBits := n / 8, n % 8;
    if n >= len * 8 {
      MemSet(a, base, len, 0);
    } else {
      ghost var s := a[..];
      if emptyBytes > 0 {
        MoveBytes(a, base, len, emptyBytes);
      }
      ghost var t := a[..];
      MoveBits(a, base, len, emptyBytes, partBits);
      BothMoved(s, t, a[..], base, len, emptyBytes, partBits);
    }
  }

  /** `mem_shift_left` on the `len` bytes from `base`. */
  method MemShiftLeft(a: array<bv8>, base: nat, len: nat, n: nat)
    requires base + len <= a.Length && len > 0 && n > 0
    modifies a
    ensures Shifted(old(a[base..base + len]), a[base..base + len], n)
    ensures Value(a[base..base + len]) == Value(old(a[base..base + len])) * Pow2(n) % Pow2(8 * len)
    ensures Outside(old(a[..]), a[..], base, len)
  {
    ghost var s := a[base..base + len];
    ShiftBytes(a, base, len, n);
    ghost var t := a[base..base + len];
    BytesShifted(s, t, n);
    ShiftedValue(s, t, n);
  }

  // ----- searching and setting

  /** Among the `n` bits from `from`, number `r` is the first that reads `want`; there is none when `r` is -1. */
  ghost predicate First(s: seq<bv8>, want: bool, from: nat, n: nat, r: int)
    requires from + n <= 8 * |s|
  {
    if r == -1 then forall k :: from <= k < from + n ==> BitAt(s, k) != want
    else 0 <= r < n && BitAt(s, from + r) == want && forall k :: from <= k < from + r ==> BitAt(s, k) != want
  }

  lemma {:induction false} FirstUnique(s: seq<bv8>, want: bool, from: nat, n: nat, q: int, r: int)
    requires from + n <= 8 * |s| && First(s, want, from, n, q) && First(s, want, from, n, r)
    ensures q == r
  {}

  /** `t` is `s` with bit `p` set, or cleared. */
  ghost predicate OneBit(s: seq<bv8>, t: seq<bv8>, p: nat, value: bool) {
    |t| == |s| && forall k :: 0 <= k < 8 * |s| ==> BitAt(t, k) == if k == p then value else BitAt(s, k)
  }

  lemma {:induction false} OneByte(s: seq<bv8>, i: nat, b: bv8, j: nat, value: bool)
    requires i < |s| && j < 8 && forall l :: 0 <= l < 8 ==> Bit(b, l) == if l == j then value else Bit(s[i], l)
    ensures OneBit(s, s[i := b], 8 * i + j, value)
  {
    forall k | 0 <= k < 8 * |s| ensures BitAt(s[i := b], k) == if k == 8 * i + j then value else BitAt(s, k) {
      assert k == 8 * (k / 8) + k % 8;
    }
  }

  /** A byte that is all ones (or all zeros) has no bit that reads 0 (or 1). */
  lemma {:induction false} ByteSkipped(s: seq<bv8>, want: bool, i: nat)
    requires i < |s|
    ensures s[i] == (if want then 0 else 0xFF) <==> forall k :: 8 * i <= k < 8 * i + 8 ==> BitAt(s, k) != want
  {
    Extremes(s[i]);
    forall j | 0 <= j < 8 ensures BitAt(s, 8 * i + j) == Bit(s[i], j) {}
    assert forall k :: 8 * i <= k < 8 * i + 8 ==> BitAt(s, k) == Bit(s[i], k - 8 * i);
  }

  /** The byte with one bit set or cleared. */
  function WithBit(b: bv8, j: nat, value: bool): (c: bv8)
    requires j < 8
    ensures forall l :: 0 <= l < 8 ==> Bit(c, l) == if l == j then value else Bit(b, l)
  {
    assert forall l :: 0 <= l < 8 ==>
      (Bit(b | (1 << j), l) == (l == j || Bit(b, l))) && (Bit(b & !(1 << j), l) == (l != j && Bit(b, l))) by {
      forall l | 0 <= l < 8
        ensures (Bit(b | (1 << j), l) == (l == j || Bit(b, l))) && (Bit(b & !(1 << j), l) == (l != j && Bit(b, l)))
      {
        SetOne(b, j, l);
        ClearOne(b, j, l);
      }
    }
    if value then b | (1 << j) else b & !(1 << j)
  }

  /** `mem_set_bit` */
  method MemSetBit(a: array<bv8>, base: nat, len: nat, n: nat, value: bool)
    requires base + len <= a.Length && n < len * 8
    modifies a
    ensures OneBit(old(a[..]), a[..], 8 * base + n, value)
    ensures forall k :: 0 <= k < 8 * a.Length ==>
      BitAt(a[..], k) == if k == 8 * base + n then value else BitAt(old(a[..]), k)
  {
    var i, j := base + n / 8, n % 8;
    OneByte(a[..], i, WithBit(a[i], j, value), j, value);
    a[i] := WithBit(a[i], j, value);
    assert a[..] == old(a[..])[i := a[i]];
    assert 8 * i + j == 8 * base + n;
  }

  /** The first bit of a byte that reads `want`. */
  method BitOfByte(b: bv8, want: bool) returns (j: nat)
    ensures j <= 8 && (forall k :: 0 <= k < j ==> Bit(b, k) != want) && (j < 8 ==> Bit(b, j) == want)
  {
    j := 0;
    while j < 8
      invariant j <= 8 && forall k :: 0 <= k < j ==> Bit(b, k) != want
    {
      if (b & (1 << j) != 0) == want {
        return;
      }
      j := j + 1;
    }
  }

  /** `mem_detect_bit` */
  method MemDetectBit(a: array<bv8>, base: nat, len: nat, zero: bool) returns (r: int)
    requires base + len <= a.Length && len > 0
    ensures First(a[..], !zero, 8 * base, 8 * len, r)
    ensures r == -1 || (0 <= r < 8 * len && BitAt(a[..], 8 * base + r) == !zero)
    ensures forall k :: 8 * base <= k < 8 * base + (if r == -1 then 8 * len else r) ==> BitAt(a[..], k) == zero
  {
    for i := 0 to len
      invariant First(a[..], !zero, 8 * base, 8 * i, -1)
    {
      ByteSkipped(a[..], !zero, base + i);
      if a[base + i] != if zero then 0xFF else 0 {
        var j := BitOfByte(a[base + i], !zero);
        if j < 8 {
          FirstInByte(a[..], !zero, base, len, i, a[base + i], j);
          return i * 8 + j;
        }
      }
    }
    r := -1;
  }

  /** Eight bytes read as one machine word. */
  function Word(s: seq<bv8>, i: nat): bv64
    requires i + 8 <= |s|
  {
    Half(s[i], s[i + 1], s[i + 2], s[i + 3]) as bv64 | ((Half(s[i + 4], s[i + 5], s[i + 6], s[i + 7]) as bv64) << 32)
  }

  function Half(a: bv8, b: bv8, c: bv8, d: bv8): bv32 {
    (a as bv32) | ((b as bv32) << 8) | ((c as bv32) << 16) | ((d as bv32) << 24)
  }

  lemma {:induction false} HalfFull(a: bv8, b: bv8, c: bv8, d: bv8)
    ensures Half(a, b, c, d) == 0xFFFF_FFFF <==> a == 0xFF && b == 0xFF && c == 0xFF && d == 0xFF
  {}

  lemma {:induction false} WordFull(s: seq<bv8>, i: nat)
    requires i + 8 <= |s|
    ensures Word(s, i) == 0xFFFF_FFFF_FFFF_FFFF <==> forall j :: i <= j < i + 8 ==> s[j] == 0xFF
  {
    HalfFull(s[i], s[i + 1], s[i + 2], s[i + 3]);
    HalfFull(s[i + 4], s[i + 5], s[i + 6], s[i + 7]);
    var lo, hi := Half(s[i], s[i + 1], s[i + 2], s[i + 3]), Half(s[i + 4], s[i + 5], s[i + 6], s[i + 7]);
    assert lo as bv64 | ((hi as bv64) << 32) == 0xFFFF_FFFF_FFFF_FFFF <==> lo == 0xFFFF_FFFF && hi == 0xFFFF_FFFF;
  }

  /** `mem_is_filled`, a word at a time and then a byte at a time: the answer is the one of a search for a clear bit. */
  method MemIsFilled(a: array<bv8>, base: nat, len: nat) returns (filled: bool)
    requires base + len <= a.Length && len > 0
    ensures filled <==> First(a[..], false, 8 * base, 8 * len, -1)
    ensures filled <==> forall i :: base <= i < base + len ==> a[i] == 0xFF
  {
    FilledBytes(a[..], base, len);
    var words, bytes := len / 8, len % 8;
    for i := 0 to words
      invariant forall j :: base <= j < base + 8 * i ==> a[j] == 0xFF
    {
      WordFull(a[..], base + 8 * i);
      if Word(a[..], base + 8 * i) != 0xFFFF_FFFF_FFFF_FFFF {
        return false;
      }
    }
    for i := 0 to bytes
      invariant forall j :: base <= j < base + 8 * words + i ==> a[j] == 0xFF
    {
      if a[base + 8 * words + i] != 0xFF {
        return false;
      }
    }
    filled := true;
  }

  lemma {:induction false} FilledBytes(s: seq<bv8>, base: nat, len: nat)
    requires base + len <= |s|
    ensures First(s, false, 8 * base, 8 * len, -1) <==> forall i :: base <= i < base + len ==> s[i] == 0xFF
  {
    forall i | 0 <= i < |s| ensures s[i] == 0xFF <==> forall k :: 8 * i <= k < 8 * i + 8 ==> BitAt(s, k) {
      ByteSkipped(s, false, i);
    }
    assert forall k :: 8 * base <= k < 8 * (base + len) ==> base <= k / 8 < base + len;
  }

  /** The search of both index allocators: the first clear bit is found and set. */
  method TakeClear(a: array<bv8>, base: nat, len: nat) returns (r: int)
    requires base + len <= a.Length
    modifies a
    ensures First(old(a[..]), false, 8 * base, 8 * len, r)
    ensures if r == -1 then a[..] == old(a[..]) else OneBit(old(a[..]), a[..], 8 * base + r, true)
  {
    r := -1;
    var i := 0;
    while i < len && r == -1
      invariant i <= len && if r == -1 then First(a[..], false, 8 * base, 8 * i, -1) && a[..] == old(a[..])
        else First(old(a[..]), false, 8 * base, 8 * len, r) && OneBit(old(a[..]), a[..], 8 * base + r, true)
    {
      ByteSkipped(a[..], false, base + i);
      if a[base + i] != 0xFF {
        r := TakeInByte(a, base, len, i);
      }
      i := i + 1;
    }
  }

  /** Whole bytes without such a bit, then the first one in a byte. */
  lemma {:induction false} FirstInByte(s: seq<bv8>, want: bool, base: nat, len: nat, i: nat, b: bv8, j: nat)
    requires base + len <= |s| && i < len && j < 8 && First(s, want, 8 * base, 8 * i, -1) && s[base + i] == b
    requires (forall k :: 0 <= k < j ==> Bit(b, k) != want) && Bit(b, j) == want
    ensures First(s, want, 8 * base, 8 * len, 8 * i + j)
  {
    forall k | 8 * base <= k < 8 * base + 8 * i + j ensures BitAt(s, k) != want {
      if k >= 8 * (base + i) {
        assert k / 8 == base + i && k % 8 == k - 8 * (base + i);
      }
    }
  }

  method TakeInByte(a: array<bv8>, base: nat, len: nat, i: nat) returns (r: nat)
    requires base + len <= a.Length && i < len && a[base + i] != 0xFF && First(a[..], false, 8 * base, 8 * i, -1)
    modifies a
    ensures First(old(a[..]), false, 8 * base, 8 * len, r) && OneBit(old(a[..]), a[..], 8 * base + r, true)
  {
    Extremes(a[base + i]);
    var j := BitOfByte(a[base + i], false);
    FirstInByte(a[..], false, base, len, i, a[base + i], j);
    r := 8 * i + j;
    MemSetBit(a, base, len, r, true);
  }
}
