/** Bits in a run of bytes, and the helpers of src/slub.c that work on them. */
module Bits {
  import opened Powers

  predicate Bit(b: bv8, j: nat)
    requires j < 8
  {
    b & (1 << j) != 0
  }

  /** Bit `k` of a run of bytes, the lowest bit of the first byte being bit 0. */
  predicate BitAt(s: seq<bv8>, k: nat)
    requires k < 8 * |s|
  {
    Bit(s[k / 8], k % 8)
  }

  // ----- one byte

  lemma {:induction false} ShiftUp(b: bv8, n: nat, up: bv8, j: nat)
    requires n < 8 && j < 8 && up == b << n
    ensures Bit(up, j) <==> j >= n && Bit(b, j - n)
  {
    if n == 0 {} else if n == 1 {} else if n == 2 {} else if n == 3 {} else if n == 4 {} else if n == 5 {}
      else if n == 6 {} else {}
  }

  lemma {:induction false} ShiftDown(b: bv8, n: nat, down: bv8, j: nat)
    requires n <= 8 && j < 8 && down == b >> n
    ensures Bit(down, j) <==> j + n < 8 && Bit(b, j + n)
  {
    if n == 0 {} else if n == 1 {} else if n == 2 {} else if n == 3 {} else if n == 4 {} else if n == 5 {}
      else if n == 6 {} else if n == 7 {} else {}
  }

  /** The bit `n` places below bit `j`, or the one `n` places above it, if there is one. */
  predicate FromBelow(b: bv8, n: nat, j: nat)
    requires j < 8
  {
    j >= n && Bit(b, j - n)
  }

  predicate FromAbove(b: bv8, n: nat, j: nat)
    requires j < 8
  {
    j + n < 8 && Bit(b, j + n)
  }

  lemma {:induction false} MoveUp(b: bv8, n: nat, up: bv8, j: nat)
    requires n < 8 && j < 8 && up == b << n
    ensures Bit(up, j) <==> FromBelow(b, n, j)
  {
    ShiftUp(b, n, up, j);
  }

  lemma {:induction false} MoveDown(b: bv8, n: nat, down: bv8, j: nat)
    requires n <= 8 && j < 8 && down == b >> n
    ensures Bit(down, j) <==> FromAbove(b, n, j)
  {
    ShiftDown(b, n, down, j);
  }

  lemma {:induction false} Join(a: bv8, b: bv8, j: nat)
    requires j < 8
    ensures Bit(a | b, j) <==> Bit(a, j) || Bit(b, j)
  {}

  lemma {:induction false} SetOne(b: bv8, n: nat, j: nat)
    requires n < 8 && j < 8
    ensures Bit(b | (1 << n), j) <==> j == n || Bit(b, j)
  {
    if n == 0 {} else if n == 1 {} else if n == 2 {} else if n == 3 {} else if n == 4 {} else if n == 5 {}
      else if n == 6 {} else {}
  }

  lemma {:induction false} ClearOne(b: bv8, n: nat, j: nat)
    requires n < 8 && j < 8
    ensures Bit(b & !(1 << n), j) <==> j != n && Bit(b, j)
  {
    if n == 0 {} else if n == 1 {} else if n == 2 {} else if n == 3 {} else if n == 4 {} else if n == 5 {}
      else if n == 6 {} else {}
  }

  /** The tests for a full and for an empty byte. */
  lemma {:induction false} Extremes(b: bv8)
    ensures b == 0xFF <==> forall j :: 0 <= j < 8 ==> Bit(b, j)
    ensures b == 0 <==> forall j :: 0 <= j < 8 ==> !Bit(b, j)
  {
    assert Bit(b, 0) && Bit(b, 1) && Bit(b, 2) && Bit(b, 3) && Bit(b, 4) && Bit(b, 5) && Bit(b, 6) && Bit(b, 7) ==>
      b == 0xFF;
    assert !Bit(b, 0) && !Bit(b, 1) && !Bit(b, 2) && !Bit(b, 3) ==>
      !Bit(b, 4) && !Bit(b, 5) && !Bit(b, 6) && !Bit(b, 7) ==> b == 0;
  }

  function Digit(b: bv8, j: nat): nat
    requires j < 8
  {
    if Bit(b, j) then 1 else 0
  }

  function ByteDigits(b: bv8): seq<nat> {
    [Digit(b, 0), Digit(b, 1), Digit(b, 2), Digit(b, 3), Digit(b, 4), Digit(b, 5), Digit(b, 6), Digit(b, 7)]
  }

  lemma {:induction false} ByteValue(b: bv8)
    ensures var d := ByteDigits(b);
      b as int == d[0] + 2 * (d[1] + 2 * (d[2] + 2 * (d[3] + 2 * (d[4] + 2 * (d[5] + 2 * (d[6] + 2 * d[7]))))))
  {}

  // ----- the number a run of bytes stands for

  /** Little-endian. */
  function Value(s: seq<bv8>): nat {
    if s == [] then 0 else s[0] as int + 256 * Value(s[1..])
  }

  /** Binary digits, the lowest first. */
  function Digits(s: seq<bv8>): (d: seq<nat>)
    ensures |d| == 8 * |s|
  {
    if s == [] then [] else ByteDigits(s[0]) + Digits(s[1..])
  }

  lemma {:induction false} DigitsAt(s: seq<bv8>, k: nat)
    requires k < 8 * |s|
    ensures Digits(s)[k] == if BitAt(s, k) then 1 else 0
  {
    if k >= 8 {
      DigitsAt(s[1..], k - 8);
      assert k / 8 - 1 == (k - 8) / 8 && k % 8 == (k - 8) % 8;
    }
  }

  lemma {:induction false} ValueOfDigits(s: seq<bv8>)
    ensures Value(s) == Binary(Digits(s))
  {
    if s == [] {
    } else {
      ValueOfDigits(s[1..]);
      ByteValue(s[0]);
      BinaryEight(ByteDigits(s[0]), Digits(s[1..]));
    }
  }

  // ----- shifting

  /** Every bit of `t` is the bit of `s` that lies `n` below it, or clear. */
  ghost predicate Shifted(s: seq<bv8>, t: seq<bv8>, n: nat) {
    |t| == |s| && forall k :: 0 <= k < 8 * |s| ==> (BitAt(t, k) <==> k >= n && BitAt(s, k - n))
  }

  /** A shift by `n` multiplies by `2^n`, modulo the room there is. */
  lemma {:induction false} ShiftedValue(s: seq<bv8>, t: seq<bv8>, n: nat)
    requires Shifted(s, t, n)
    ensures Value(t) == Value(s) * Pow2(n) % Pow2(8 * |s|)
  {
    var d, e := Digits(s), Digits(t);
    forall k | 0 <= k < |d| ensures e[k] == if k >= n then d[k - n] else 0 {
      DigitsAt(t, k);
      if k >= n {
        DigitsAt(s, k - n);
      }
    }
    forall k | 0 <= k < |d| ensures d[k] <= 1 && e[k] <= 1 {
      DigitsAt(s, k);
      DigitsAt(t, k);
    }
    ValueOfDigits(s);
    ValueOfDigits(t);
    BinaryShift(d, e, n);
  }
}
