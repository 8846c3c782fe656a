/** Powers of two, and numbers written in binary. */
module Powers {
  function Pow2(n: nat): (p: nat)
    ensures p > 0
  {
    if n == 0 then 1 else 2 * Pow2(n - 1)
  }

  lemma {:induction false} Pow2Sum(a: nat, b: nat)
    ensures Pow2(a + b) == Pow2(a) * Pow2(b)
  {
    if a == 0 {
    } else {
      Pow2Sum(a - 1, b);
      assert Pow2(a + b) == 2 * Pow2(a - 1 + b);
    }
  }

  /** The number with the digits `d`, the lowest first. */
  function Binary(d: seq<nat>): nat {
    if d == [] then 0 else d[0] + 2 * Binary(d[1..])
  }

  ghost predicate Bits01(d: seq<nat>) {
    forall k :: 0 <= k < |d| ==> d[k] <= 1
  }

  lemma {:induction false} BinaryEight(d: seq<nat>, e: seq<nat>)
    requires |d| == 8
    ensures Binary(d + e) ==
      d[0] + 2 * (d[1] + 2 * (d[2] + 2 * (d[3] + 2 * (d[4] + 2 * (d[5] + 2 * (d[6] + 2 * d[7])))))) + 256 * Binary(e)
  {
    BinaryHead(d + e, 0);
    BinaryHead(d + e, 1);
    BinaryHead(d + e, 2);
    BinaryHead(d + e, 3);
    BinaryHead(d + e, 4);
    BinaryHead(d + e, 5);
    BinaryHead(d + e, 6);
    BinaryHead(d + e, 7);
    assert (d + e)[0..] == d + e && (d + e)[8..] == e;
  }

  lemma {:induction false} BinaryHead(d: seq<nat>, k: nat)
    requires k < |d|
    ensures Binary(d[k..]) == d[k] + 2 * Binary(d[k + 1..])
  {
    assert d[k..][1..] == d[k + 1..];
  }

  lemma {:induction false} BinaryBound(d: seq<nat>)
    requires Bits01(d)
    ensures Binary(d) < Pow2(|d|)
  {
    if d == [] {
    } else {
      BinaryBound(d[1..]);
    }
  }

  lemma {:induction false} BinaryAppend(d: seq<nat>, e: seq<nat>)
    ensures Binary(d + e) == Binary(d) + Pow2(|d|) * Binary(e)
  {
    if d == [] {
      assert d + e == e;
    } else {
      assert (d + e)[1..] == d[1..] + e;
      BinaryAppend(d[1..], e);
      Double(Pow2(|d| - 1), Binary(e));
    }
  }

  lemma {:induction false} Double(p: nat, q: nat)
    ensures 2 * (p * q) == (2 * p) * q
  {}

  function Zeros(n: nat): seq<nat> {
    if n == 0 then [] else [0] + Zeros(n - 1)
  }

  lemma {:induction false} ZerosAre(n: nat)
    ensures |Zeros(n)| == n && Binary(Zeros(n)) == 0 && forall k :: 0 <= k < n ==> Zeros(n)[k] == 0
  {
    if n == 0 {
    } else {
      ZerosAre(n - 1);
    }
  }

  lemma {:induction false} Divided(v: nat, w: nat, m: nat, q: nat)
    requires v == w + m * q && w < m
    ensures v % m == w
  {
    var a := v / m;
    assert v == m * a + v % m;
    if a > q {
      Larger(m, a, q);
    } else if a < q {
      Larger(m, q, a);
    }
  }

  lemma {:induction false} Larger(m: nat, a: nat, b: nat)
    requires a > b
    ensures m * a >= m * b + m
  {
    assert m * a == m * b + m * (a - b);
    if a - b > 1 {
      Larger(m, a - 1, b);
    }
  }

  lemma {:induction false} Regroup(a: nat, b: nat, c: nat)
    ensures (a * b) * c == a * (b * c) == b * (a * c)
  {
    assert (a * b) * c == a * (b * c);
  }

  /** Moving the digits up by `n`, and dropping those that leave the field, multiplies by `2^n` modulo the field. */
  lemma {:induction false} BinaryShift(d: seq<nat>, e: seq<nat>, n: nat)
    requires |d| == |e| && Bits01(d) && Bits01(e)
    requires forall k :: 0 <= k < |d| ==> e[k] == if k >= n then d[k - n] else 0
    ensures Binary(e) == Binary(d) * Pow2(n) % Pow2(|d|)
  {
    var all := Pow2(|d|);
    BinaryBound(e);
    if n <= |d| {
      var low, high := d[..|d| - n], d[|d| - n..];
      ZerosAre(n);
      assert d == low + high && e == Zeros(n) + low;
      BinaryAppend(low, high);
      BinaryAppend(Zeros(n), low);
      Pow2Sum(|d| - n, n);
      Spread(Binary(low), Pow2(|d| - n), Binary(high), Pow2(n));
      Divided(Binary(d) * Pow2(n), Binary(e), all, Binary(high));
    } else {
      ZerosAre(|d|);
      assert e == Zeros(|d|);
      Pow2Sum(|d|, n - |d|);
      Regroup(Binary(d), all, Pow2(n - |d|));
      Divided(Binary(d) * Pow2(n), 0, all, Binary(d) * Pow2(n - |d|));
    }
  }

  lemma {:induction false} Spread(v: nat, p: nat, q: nat, r: nat)
    ensures (v + p * q) * r == r * v + (p * r) * q
  {
    assert (v + p * q) * r == v * r + (p * q) * r;
    Regroup(p, q, r);
    Regroup(p, r, q);
  }
}
