/** The single-linked intrusive lists of include/list.h.  A list is threaded through one word of
    every element, and a list head is such a word too; here memory is a map from the addresses of
    these words to what they hold. */
module IntrusiveList {
  import opened Sequences

  /** The addresses of the program's `list_t` words: three list heads, and the `m_node` and
      `m_posted_node` of every socket slot.  The free list and the connection list share `m_node`. */
  datatype Addr = Null | FreeList | Connections | PostedEvents | Node(slot: nat) | PostedNode(slot: nat)

  type Words = map<Addr, Addr>

  /** From the word `head` the words lead through `s` and end; no word comes twice. */
  ghost predicate Chain(w: Words, head: Addr, s: seq<Addr>)
    decreases s
  {
    && head in w && head !in s && !head.Null?
    && (if s == [] then w[head] == Null else w[head] == s[0] && Chain(w, s[0], s[1..]))
  }

  /** `s` without its first `x`. */
  ghost function Without(s: seq<Addr>, x: Addr): seq<Addr> {
    if s == [] then [] else if s[0] == x then s[1..] else [s[0]] + Without(s[1..], x)
  }

  lemma {:induction false} WithoutAt(s: seq<Addr>, k: nat)
    requires k < |s| && s[k] !in s[..k]
    ensures Without(s, s[k]) == s[..k] + s[k + 1..]
  {
    if k == 0 {
    } else {
      var t := s[1..];
      assert s[..k][0] == s[0] && t[..k - 1] == s[..k][1..];
      WithoutAt(t, k - 1);
      assert Without(s, s[k]) == [s[0]] + (t[..k - 1] + t[k..]);
    }
  }

  lemma {:induction false} WithoutNone(s: seq<Addr>, x: Addr)
    requires x !in s
    ensures Without(s, x) == s
  {
    if s == [] {
    } else {
      WithoutNone(s[1..], x);
    }
  }

  /** Taking an element out of a list without duplicates. */
  lemma {:induction false} WithoutMembers(s: seq<Addr>, x: Addr)
    requires Distinct(s)
    ensures Distinct(Without(s, x)) && |Without(s, x)| == |s| - (if x in s then 1 else 0)
    ensures forall y :: y in Without(s, x) ==> y in s && y != x
    ensures forall y :: y in s && y != x ==> y in Without(s, x)
  {
    if s != [] && s[0] != x {
      WithoutMembers(s[1..], x);
      assert Without(s, x)[1..] == Without(s[1..], x);
    }
  }

  lemma {:induction false} ChainDistinct(w: Words, head: Addr, s: seq<Addr>)
    requires Chain(w, head, s)
    ensures Distinct(s) && (forall a <- s :: a in w && !a.Null?)
    decreases s
  {
    if s == [] {
    } else {
      ChainDistinct(w, s[0], s[1..]);
    }
  }

  /** A chain does not notice writes to other words, and can be entered from another head. */
  lemma {:induction false} KeepChain(w: Words, w': Words, head: Addr, head': Addr, s: seq<Addr>)
    requires Chain(w, head, s) && head' in w' && w'[head'] == w[head] && head' !in s && !head'.Null?
    requires forall a <- s :: a in w && a in w' && w'[a] == w[a]
    ensures Chain(w', head', s)
    decreases s
  {
    if s == [] {
    } else {
      KeepChain(w, w', s[0], s[0], s[1..]);
    }
  }

  /** What `add_node` writes. */
  ghost function Pushed(w: Words, head: Addr, node: Addr): Words
    requires head in w
  {
    w[node := w[head]][head := node]
  }

  lemma {:induction false} ChainPush(w: Words, head: Addr, s: seq<Addr>, node: Addr)
    requires Chain(w, head, s) && node in w && node !in s && node != head && !node.Null?
    ensures Chain(Pushed(w, head, node), head, [node] + s)
  {
    ChainDistinct(w, head, s);
    KeepChain(w, Pushed(w, head, node), head, node, s);
    assert ([node] + s)[1..] == s;
  }

  /** What `rm_node` writes when `curr` is the word that leads to `node`. */
  ghost function Cut(w: Words, curr: Addr, node: Addr): Words
    requires node in w
  {
    w[curr := w[node]][node := Null]
  }

  lemma {:induction false} ChainCut(w: Words, head: Addr, s: seq<Addr>, k: nat, curr: Addr)
    requires Chain(w, head, s) && k < |s| && s[k] in w && curr == (if k == 0 then head else s[k - 1])
    ensures Chain(Cut(w, curr, s[k]), head, s[..k] + s[k + 1..])
    decreases s
  {
    var w' := Cut(w, curr, s[k]);
    ChainDistinct(w, head, s);
    if k == 0 {
      ChainDistinct(w, s[0], s[1..]);
      KeepChain(w, w', s[0], head, s[1..]);
      assert s[..0] + s[1..] == s[1..];
    } else {
      ChainCut(w, s[0], s[1..], k - 1, curr);
      var s' := s[..k] + s[k + 1..];
      assert s'[1..] == s[1..][..k - 1] + s[1..][k..] && s'[0] == s[0];
      assert head != s[k - 1] && head != s[k];
    }
  }

  /** No word but the list's own and `node` has changed. */
  ghost predicate Elsewhere(w: Words, w': Words, head: Addr, s: seq<Addr>, node: Addr) {
    w'.Keys == w.Keys && forall a <- w :: a != head && a !in s && a != node ==> w'[a] == w[a]
  }

  class Store {
    var words: Words

    constructor ()
      ensures words == map[FreeList := Null, Connections := Null, PostedEvents := Null]
    {
      words := map[FreeList := Null, Connections := Null, PostedEvents := Null];
    }

    /** `add_node` */
    method AddNode(head: Addr, node: Addr, ghost s: seq<Addr>)
      requires Chain(words, head, s) && node in words && node !in s && node != head && !node.Null?
      modifies this
      ensures Chain(words, head, [node] + s) && Elsewhere(old(words), words, head, s, node)
    {
      ChainPush(words, head, s, node);
      var tmp := words[head];
      words := words[node := tmp];
      words := words[head := node];
    }

    /** `rm_node` */
    method RmNode(head: Addr, node: Addr, ghost s: seq<Addr>) returns (removed: bool)
      requires Chain(words, head, s) && node in words && !node.Null?
      modifies this
      ensures Chain(words, head, Without(s, node)) && Elsewhere(old(words), words, head, s, Null)
      ensures removed <==> node in s
      ensures removed ==> words[node] == Null
    {
      removed := false;
      var curr := head;
      ghost var k := 0;
      while words[curr] != Null
        invariant 0 <= k <= |s| && curr == (if k == 0 then head else s[k - 1])
        invariant node !in s[..k] && Chain(words, curr, s[k..]) && words == old(words)
        decreases |s| - k
      {
        assert s[k..][0] == s[k] && s[k..][1..] == s[k + 1..];
        if node == words[curr] {
          Unhook(curr, node, head, s, k);
          return true;
        }
        curr := words[curr];
        k := k + 1;
      }
      WithoutNone(s, node);
    }

    method Unhook(curr: Addr, node: Addr, ghost head: Addr, ghost s: seq<Addr>, ghost k: nat)
      requires Chain(words, head, s) && k < |s| && s[k] == node && node in words && !node.Null? && node !in s[..k]
      requires curr == (if k == 0 then head else s[k - 1])
      modifies this
      ensures Chain(words, head, Without(s, node)) && Elsewhere(old(words), words, head, s, Null) && words[node] == Null
    {
      ChainCut(words, head, s, k, curr);
      WithoutAt(s, k);
      ChainDistinct(words, head, s);
      assert k > 0 ==> s[k - 1] in s;
      words := words[curr := words[node]];
      words := words[node := Null];
    }
  }
}
