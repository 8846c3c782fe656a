/** Sequences without repetitions, sequences turned round, and rows of flags. */
module Sequences {
  ghost predicate Distinct<T>(s: seq<T>) {
    s != [] ==> s[0] !in s[1..] && Distinct(s[1..])
  }

  lemma {:induction false} DistinctAppend<T>(s: seq<T>, t: seq<T>)
    ensures Distinct(s + t) <==> Distinct(s) && Distinct(t) && forall x <- s :: x !in t
  {
    if s == [] {
      assert s + t == t;
    } else {
      assert (s + t)[1..] == s[1..] + t;
      DistinctAppend(s[1..], t);
    }
  }

  lemma {:induction false} DistinctAt<T>(s: seq<T>, i: nat, j: nat)
    requires Distinct(s) && i < j < |s|
    ensures s[i] != s[j]
  {
    if i == 0 {
    } else {
      DistinctAt(s[1..], i - 1, j - 1);
    }
  }

  lemma {:induction false} DistinctFromIndices<T>(s: seq<T>)
    requires forall i, j :: 0 <= i < j < |s| ==> s[i] != s[j]
    ensures Distinct(s)
  {
    if s == [] {
    } else {
      DistinctFromIndices(s[1..]);
    }
  }

  function Reversed<T>(s: seq<T>): (r: seq<T>)
    ensures |r| == |s|
  {
    if s == [] then [] else Reversed(s[1..]) + [s[0]]
  }

  lemma {:induction false} ReversedAppend<T>(s: seq<T>, t: seq<T>)
    ensures Reversed(s + t) == Reversed(t) + Reversed(s)
  {
    if s == [] {
      assert s + t == t;
    } else {
      ReversedAppend(s[1..], t);
      assert (s + t)[1..] == s[1..] + t;
    }
  }

  lemma {:induction false} ReversedAt<T>(s: seq<T>, k: nat)
    requires k < |s|
    ensures Reversed(s)[k] == s[|s| - 1 - k]
  {
    if k < |s| - 1 {
      ReversedAt(s[1..], k);
    }
  }

  lemma {:induction false} ReversedIs<T>(s: seq<T>, t: seq<T>)
    requires |t| == |s| && forall k :: 0 <= k < |s| ==> t[k] == s[|s| - 1 - k]
    ensures t == Reversed(s)
  {
    forall k | 0 <= k < |s| ensures Reversed(s)[k] == t[k] {
      ReversedAt(s, k);
    }
  }

  predicate NoneSet(s: seq<bool>) {
    forall i :: 0 <= i < |s| ==> !s[i]
  }
}
