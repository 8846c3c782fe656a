/** The circular double-linked lists of include/list.h, over memory that maps every link to its two
    neighbours. */
module CircularList {
  import opened Sequences

  /** The links of one echo connection: three list heads, and the node in every buffer. */
  datatype Link = ReadQueue | OldQueue | TmpQueue | Buf(id: nat)

  datatype Links = Links(next: map<Link, Link>, prev: map<Link, Link>)

  /** From `a` the links lead through `s` to `b`, and back. */
  ghost predicate Path(m: Links, a: Link, s: seq<Link>, b: Link)
    decreases |s|
  {
    && a in m.next
    && (if s == [] then b in m.prev && m.next[a] == b && m.prev[b] == a
        else s[0] in m.prev && m.next[a] == s[0] && m.prev[s[0]] == a && Path(m, s[0], s[1..], b))
  }

  /** The list with head `h` holds `s`. */
  ghost predicate Ring(m: Links, h: Link, s: seq<Link>) {
    Path(m, h, s, h) && h !in s && Distinct(s)
  }

  function Last(a: Link, s: seq<Link>): Link {
    if s == [] then a else s[|s| - 1]
  }

  lemma {:induction false} PathEnds(m: Links, a: Link, s: seq<Link>, b: Link)
    requires Path(m, a, s, b)
    ensures m.next[a] == (if s == [] then b else s[0])
    ensures b in m.prev && m.prev[b] == Last(a, s) && Last(a, s) in m.next
    ensures forall x <- s :: x in m.next && x in m.prev
    decreases |s|
  {
    if s == [] {
    } else {
      PathEnds(m, s[0], s[1..], b);
    }
  }

  lemma {:induction false} PathSplit(m: Links, a: Link, s: seq<Link>, x: Link, t: seq<Link>, b: Link)
    ensures Path(m, a, s + [x] + t, b) <==> Path(m, a, s, x) && Path(m, x, t, b)
    decreases |s|
  {
    var u := s + [x] + t;
    if s == [] {
      assert u[0] == x && u[1..] == t;
    } else {
      assert u[0] == s[0] && u[1..] == s[1..] + [x] + t;
      PathSplit(m, s[0], s[1..], x, t, b);
    }
  }

  lemma {:induction false} KeepPath(m: Links, m': Links, a: Link, s: seq<Link>, b: Link)
    requires Path(m, a, s, b) && b in m.prev && b in m'.prev && m'.prev[b] == m.prev[b] && a in m'.next
      && m'.next[a] == m.next[a]
    requires forall x <- s ::
      x in m.next && x in m.prev && x in m'.next && x in m'.prev && m'.next[x] == m.next[x] && m'.prev[x] == m.prev[x]
    ensures Path(m', a, s, b)
    decreases |s|
  {
    if s == [] {
    } else {
      KeepPath(m, m', s[0], s[1..], b);
    }
  }

  /** The same way, but its last link leads elsewhere. */
  lemma {:induction false} Retarget(m: Links, m': Links, a: Link, s: seq<Link>, b: Link, c: Link)
    requires Path(m, a, s, b) && a !in s && Distinct(s)
    requires var l := Last(a, s); l in m'.next && m'.next[l] == c && c in m'.prev && m'.prev[c] == l
    requires a in m'.next && (s != [] ==> m'.next[a] == m.next[a])
    requires forall x <- s :: x in m.next && x in m.prev && x in m'.next && x in m'.prev && m'.prev[x] == m.prev[x]
    requires forall x <- s :: x != Last(a, s) ==> m'.next[x] == m.next[x]
    ensures Path(m', a, s, c)
    decreases |s|
  {
    if s == [] {
    } else {
      assert Last(a, s) == Last(s[0], s[1..]);
      assert |s| > 1 ==> s[|s| - 1] in s[1..];
      Retarget(m, m', s[0], s[1..], b, c);
    }
  }

  // ----- what the operations write

  /** `dlist_add_orig` */
  function Added(m: Links, node: Link, before: Link, after: Link): Links {
    Links(m.next[node := after][before := node], m.prev[after := node][node := before])
  }

  lemma {:induction false} RingAddTail(m: Links, h: Link, s: seq<Link>, node: Link)
    requires Ring(m, h, s) && node != h && node !in s
    ensures h in m.prev && Ring(Added(m, node, m.prev[h], h), h, s + [node])
  {
    PathEnds(m, h, s, h);
    var m' := Added(m, node, m.prev[h], h);
    Retarget(m, m', h, s, h, node);
    PathSplit(m', h, s, node, [], h);
    assert s + [node] + [] == s + [node];
    DistinctAppend(s, [node]);
  }

  /** `dlist_del_orig` */
  function Removed(m: Links, before: Link, after: Link): Links {
    Links(m.next[before := after], m.prev[after := before])
  }

  lemma {:induction false} RingRemove(m: Links, h: Link, s: seq<Link>, x: Link, t: seq<Link>)
    requires Ring(m, h, s + [x] + t)
    ensures x in m.prev && x in m.next && Ring(Removed(m, m.prev[x], m.next[x]), h, s + t)
  {
    PathSplit(m, h, s, x, t, h);
    DistinctAppend(s + [x], t);
    DistinctAppend(s, [x]);
    DistinctAppend(s, t);
    PathRemove(m, h, s, x, t);
  }

  lemma {:induction false} PathRemove(m: Links, h: Link, s: seq<Link>, x: Link, t: seq<Link>)
    requires Path(m, h, s, x) && Path(m, x, t, h) && Distinct(s) && Distinct(t)
    requires h !in s && h !in t && h != x && x !in s && x !in t && forall y <- s :: y !in t
    ensures x in m.prev && x in m.next && Path(Removed(m, m.prev[x], m.next[x]), h, s + t, h)
  {
    PathEnds(m, h, s, x);
    PathEnds(m, x, t, h);
    var m' := Removed(m, m.prev[x], m.next[x]);
    assert s != [] ==> Last(h, s) in s;
    if t == [] {
      Retarget(m, m', h, s, x, h);
      assert s + t == s;
    } else {
      Retarget(m, m', h, s, x, t[0]);
      PathEnds(m, t[0], t[1..], h);
      KeepPath(m, m', t[0], t[1..], h);
      PathSplit(m', h, s, t[0], t[1..], h);
      assert s + [t[0]] + t[1..] == s + t;
    }
  }

  /** `dlist_merge` with a body that is not empty. */
  function Merged(m: Links, h: Link, g: Link): Links
    requires h in m.prev && g in m.prev && g in m.next
  {
    var last, first, end := m.prev[h], m.next[g], m.prev[g];
    Links(m.next[end := h][last := first][g := g], m.prev[first := last][h := end][g := g])
  }

  lemma {:induction false} RingMerge(m: Links, h: Link, s: seq<Link>, g: Link, t: seq<Link>)
    requires Ring(m, h, s) && Ring(m, g, t) && t != [] && h != g && h !in t && g !in s && forall x <- s :: x !in t
    ensures h in m.prev && g in m.prev && g in m.next
    ensures Ring(Merged(m, h, g), h, s + t) && Ring(Merged(m, h, g), g, [])
  {
    PathEnds(m, h, s, h);
    PathEnds(m, g, t, g);
    var m' := Merged(m, h, g);
    assert (s != [] ==> Last(h, s) in s) && Last(h, s) !in t && Last(h, s) != g;
    Retarget(m, m', h, s, h, t[0]);
    assert Path(m, t[0], t[1..], g) && Last(g, t) in t;
    assert Last(t[0], t[1..]) == t[|t| - 1];
    Retarget(m, m', t[0], t[1..], g, h);
    PathSplit(m', h, s, t[0], t[1..], h);
    HeadTail(s, t);
    DistinctAppend(s, t);
  }

  lemma {:induction false} HeadTail(s: seq<Link>, t: seq<Link>)
    requires t != []
    ensures s + [t[0]] + t[1..] == s + t
  {}

  // ----- walking, and lists beside each other

  lemma {:induction false} MergeBeside(m: Links, h: Link, s: seq<Link>, g: Link, t: seq<Link>)
    requires Ring(m, h, s) && Ring(m, g, t) && t != []
    ensures h in m.prev && g in m.prev && g in m.next && Beside(m, Merged(m, h, g), h, s + t + [g])
  {
    PathEnds(m, h, s, h);
    PathEnds(m, g, t, g);
    assert (s != [] ==> Last(h, s) in s) && Last(g, t) in t && t[0] in t;
  }

  /** Element `k`, the head coming after the last. */
  function At(h: Link, s: seq<Link>, k: nat): Link {
    if k < |s| then s[k] else h
  }

  lemma {:induction false} PathStep(m: Links, a: Link, s: seq<Link>, b: Link, k: nat)
    requires Path(m, a, s, b) && k <= |s|
    ensures var x := if k == 0 then a else s[k - 1]; x in m.next && m.next[x] == At(b, s, k)
    decreases k
  {
    if k == 0 {
    } else {
      PathStep(m, s[0], s[1..], b, k - 1);
    }
  }

  /** The links of `h` and `s` are the same in both memories. */
  lemma {:induction false} KeepRing(m: Links, m': Links, h: Link, s: seq<Link>)
    requires Ring(m, h, s) && h in m.prev && h in m'.next && h in m'.prev && m'.next[h] == m.next[h]
      && m'.prev[h] == m.prev[h]
    requires forall x <- s ::
      x in m.next && x in m.prev && x in m'.next && x in m'.prev && m'.next[x] == m.next[x] && m'.prev[x] == m.prev[x]
    ensures Ring(m', h, s)
  {
    KeepPath(m, m', h, s, h);
  }

  /** `m'` differs from `m` at most in the links of `h` and `s`. */
  ghost predicate Beside(m: Links, m': Links, h: Link, s: seq<Link>) {
    && (forall x <- m.next :: x != h && x !in s ==> x in m'.next && m'.next[x] == m.next[x])
    && (forall x <- m.prev :: x != h && x !in s ==> x in m'.prev && m'.prev[x] == m.prev[x])
  }

  lemma {:induction false} RingBeside(m: Links, m': Links, h: Link, s: seq<Link>, g: Link, t: seq<Link>)
    requires Beside(m, m', h, s) && Ring(m, g, t) && g != h && g !in s && h !in t && forall x <- t :: x !in s
    ensures Ring(m', g, t)
  {
    PathEnds(m, g, t, g);
    KeepRing(m, m', g, t);
  }

  class Lists {
    var m: Links

    constructor ()
      ensures Ring(m, ReadQueue, []) && m.next.Keys == {ReadQueue} == m.prev.Keys
    {
      m := Links(map[ReadQueue := ReadQueue], map[ReadQueue := ReadQueue]);
    }

    /** `dlist_init` */
    method Init(h: Link)
      modifies this
      ensures Ring(m, h, []) && Beside(old(m), m, h, [])
    {
      m := Links(m.next[h := h], m.prev[h := h]);
    }

    /** `dlist_empty` */
    method Empty(h: Link, ghost s: seq<Link>) returns (b: bool)
      requires Ring(m, h, s)
      ensures b <==> s == []
      ensures h in m.next && (s != [] ==> m.next[h] == s[0])
    {
      PathEnds(m, h, s, h);
      b := m.prev[h] == m.next[h] && h == m.prev[h];
    }

    /** `dlist_add_tail` */
    method AddTail(h: Link, node: Link, ghost s: seq<Link>)
      requires Ring(m, h, s) && node != h && node !in s
      modifies this
      ensures Ring(m, h, s + [node]) && Beside(old(m), m, h, s + [node])
    {
      PathEnds(m, h, s, h);
      RingAddTail(m, h, s, node);
      m := Added(m, node, m.prev[h], h);
    }

    /** `dlist_del` */
    method Del(node: Link, ghost h: Link, ghost s: seq<Link>, ghost t: seq<Link>)
      requires Ring(m, h, s + [node] + t)
      modifies this
      ensures Ring(m, h, s + t) && Beside(old(m), m, h, s + t)
    {
      PathSplit(m, h, s, node, t, h);
      PathEnds(m, h, s, node);
      PathEnds(m, node, t, h);
      RingRemove(m, h, s, node, t);
      m := Removed(m, m.prev[node], m.next[node]);
    }

    /** `dlist_merge` */
    method Merge(h: Link, g: Link, ghost s: seq<Link>, ghost t: seq<Link>)
      requires Ring(m, h, s) && Ring(m, g, t) && h != g && h !in t && g !in s && forall x <- s :: x !in t
      modifies this
      ensures Ring(m, h, s + t) && Ring(m, g, []) && Beside(old(m), m, h, s + t + [g])
    {
      PathEnds(m, h, s, h);
      PathEnds(m, g, t, g);
      var empty := Empty(g, t);
      if empty {
        assert s + t == s;
        return;
      }
      RingMerge(m, h, s, g, t);
      MergeBeside(m, h, s, g, t);
      m := Merged(m, h, g);
    }
  }
}
