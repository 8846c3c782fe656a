/** The read-only walks of rbtree.c: first, last, next and previous node. */
module RbWalk {
  import opened RbModel
  import opened RbTree
  import opened Sequences

  /** `y` comes right after `x` in `s`, or `x` is the last and `y` is null. */
  ghost predicate Follows(s: seq<Node>, x: Node, y: Node?) {
    exists i :: FollowsAt(s, i, x, y)
  }

  /** `y` comes right before `x` in `s`, or `x` is the first and `y` is null. */
  ghost predicate Precedes(s: seq<Node>, x: Node, y: Node?) {
    exists i :: PrecedesAt(s, i, x, y)
  }

  ghost predicate FollowsAt(s: seq<Node>, i: int, x: Node, y: Node?) {
    0 <= i < |s| && s[i] == x && y == (if i + 1 < |s| then s[i + 1] else null)
  }

  ghost predicate PrecedesAt(s: seq<Node>, i: int, x: Node, y: Node?) {
    0 <= i < |s| && s[i] == x && y == (if 0 < i then s[i - 1] else null)
  }

  /** In a sequence without repetitions a place is known by what stands there. */
  lemma {:induction false} OnePlace(s: seq<Node>, i: nat, j: nat)
    requires Distinct(s) && i < |s| && j < |s| && s[i] == s[j]
    ensures i == j
  {
    if i < j {
      DistinctAt(s, i, j);
    } else if j < i {
      DistinctAt(s, j, i);
    }
  }

  lemma {:induction false} FollowsHere(s: seq<Node>, k: nat, y: Node?)
    requires Distinct(s) && k < |s| && Follows(s, s[k], y)
    ensures y == if k + 1 < |s| then s[k + 1] else null
  {
    var i :| FollowsAt(s, i, s[k], y);
    OnePlace(s, i, k);
  }

  lemma {:induction false} PrecedesHere(s: seq<Node>, k: nat, y: Node?)
    requires Distinct(s) && k < |s| && Precedes(s, s[k], y)
    ensures y == if 0 < k then s[k - 1] else null
  {
    var i :| PrecedesAt(s, i, s[k], y);
    OnePlace(s, i, k);
  }

  /** One step forward, then one step back. */
  lemma {:induction false} ThereAndBack(s: seq<Node>, x: Node, y: Node, z: Node?)
    requires Distinct(s) && Follows(s, x, y) && Precedes(s, y, z)
    ensures z == x
  {
    var i :| FollowsAt(s, i, x, y);
    PrecedesHere(s, i + 1, z);
  }

  lemma {:induction false} BackAndThere(s: seq<Node>, x: Node, y: Node, z: Node?)
    requires Distinct(s) && Precedes(s, x, y) && Follows(s, y, z)
    ensures z == x
  {
    var i :| PrecedesAt(s, i, x, y);
    FollowsHere(s, i - 1, z);
  }

  lemma {:induction false} Starts(t: Tree)
    requires t.Fork?
    ensures Inorder(t)[0] == if t.l.Fork? then Inorder(t.l)[0] else t.n
  {
    if t.l.Fork? {
      assert |Inorder(t.l)| > 0;
    }
  }

  lemma {:induction false} Ends(t: Tree)
    requires t.Fork?
    ensures Inorder(t)[|Inorder(t)| - 1] == if t.r.Fork? then Inorder(t.r)[|Inorder(t.r)| - 1] else t.n
  {
    if t.r.Fork? {
      assert |Inorder(t.r)| > 0;
    }
  }

  /** The loop that goes left as far as it can. */
  method Leftmost(n: Node, ghost root: Root, ghost c: Ctx, ghost t: Tree) returns (r: Node)
    requires root.At(c, t) && t.Fork? && t.n == n
    ensures r == Inorder(t)[0]
  {
    r := n;
    ghost var c1, t1 := c, t;
    root.Around(c1, t1);
    Starts(t1);
    while r.left != null
      invariant root.At(c1, t1) && t1.Fork? && t1.n == r && r.left == Ptr(t1.l) && Inorder(t1)[0] == Inorder(t)[0]
      invariant Inorder(t1)[0] == if t1.l.Fork? then Inorder(t1.l)[0] else t1.n
      decreases t1
    {
      root.Descend(c1, t1, L);
      c1, t1 := Step(c1, L, t1.n, t1.red, t1.r), t1.l;
      r := r.left;
      root.Around(c1, t1);
      Starts(t1);
    }
  }

  method Rightmost(n: Node, ghost root: Root, ghost c: Ctx, ghost t: Tree) returns (r: Node)
    requires root.At(c, t) && t.Fork? && t.n == n
    ensures r == Inorder(t)[|Inorder(t)| - 1]
  {
    r := n;
    ghost var c1, t1 := c, t;
    root.Around(c1, t1);
    Ends(t1);
    while r.right != null
      invariant root.At(c1, t1) && t1.Fork? && t1.n == r && r.right == Ptr(t1.r)
      invariant Inorder(t1)[|Inorder(t1)| - 1] == Inorder(t)[|Inorder(t)| - 1]
      invariant Inorder(t1)[|Inorder(t1)| - 1] == if t1.r.Fork? then Inorder(t1.r)[|Inorder(t1.r)| - 1] else t1.n
      decreases t1
    {
      root.Descend(c1, t1, R);
      c1, t1 := Step(c1, R, t1.n, t1.red, t1.l), t1.r;
      r := r.right;
      root.Around(c1, t1);
      Ends(t1);
    }
  }

  /** `rb_first` */
  method First(root: Root) returns (r: Node?)
    requires root.Valid()
    ensures r == if root.Order() == [] then null else root.Order()[0]
  {
    var n := root.rb_node;
    if n == null {
      return null;
    }
    r := Leftmost(n, root, Top, root.tree);
  }

  /** `rb_last` */
  method Last(root: Root) returns (r: Node?)
    requires root.Valid()
    ensures var s := root.Order(); r == if s == [] then null else s[|s| - 1]
  {
    var n := root.rb_node;
    if n == null {
      return null;
    }
    r := Rightmost(n, root, Top, root.tree);
  }

  /** `rb_next`; a node whose parent is itself is one that `RB_CLEAR_NODE` has marked as in no tree. */
  method Next(node: Node, ghost root: Root) returns (r: Node?)
    requires node.parent == node || (root.Valid() && node in root.nodes)
    ensures if node.parent == node then r == null else Follows(root.Order(), node, r)
  {
    if node.parent == node {
      return null;
    }
    ghost var c, t := root.Focus(node);
    root.Around(c, t);
    if node.right != null {
      root.Descend(c, t, R);
      r := Leftmost(node.right, root, Step(c, R, t.n, t.red, t.l), t.r);
      FoundNext(c, t, r);
      return;
    }
    r := ClimbNext(node, root, c, t);
    FoundNext(c, t, r);
  }

  /** The loop that goes up while it comes from the right. */
  method ClimbNext(node0: Node, ghost root: Root, ghost c: Ctx, ghost t: Tree) returns (parent: Node?)
    requires root.At(c, t) && t.Fork? && t.n == node0
    ensures parent == if After(c) == [] then null else After(c)[0]
  {
    var node := node0;
    parent := node.parent;
    ghost var c1, t1 := c, t;
    root.Around(c1, t1);
    root.Sides(c1, t1);
    while parent != null && node == parent.right
      invariant root.At(c1, t1) && t1.Fork? && t1.n == node && parent == CPtr(c1) && After(c1) == After(c)
      invariant c1.Step? ==> (node == parent.right <==> c1.side.R?)
      decreases Depth(c1)
    {
      root.Ascend(c1, t1);
      c1, t1 := c1.up, Mk(c1.side, t1, c1.p, c1.red, c1.sib);
      node := parent;
      root.Around(c1, t1);
      root.Sides(c1, t1);
      parent := node.parent;
    }
  }

  lemma {:induction false} Middle(a: seq<Node>, x: Node, b: seq<Node>)
    ensures Follows(a + [x] + b, x, if b == [] then null else b[0])
    ensures Precedes(a + [x] + b, x, if a == [] then null else a[|a| - 1])
  {
    assert FollowsAt(a + [x] + b, |a|, x, if b == [] then null else b[0]);
    assert PrecedesAt(a + [x] + b, |a|, x, if a == [] then null else a[|a| - 1]);
  }

  lemma {:induction false} FoundNext(c: Ctx, t: Tree, r: Node?)
    requires t.Fork?
    requires var rest := Inorder(t.r) + After(c); r == if rest == [] then null else rest[0]
    ensures Follows(Inorder(Plug(c, t)), t.n, r)
  {
    MiddleOf(c, t);
    Middle(Before(c) + Inorder(t.l), t.n, Inorder(t.r) + After(c));
  }

  /** `rb_prev` */
  method Prev(node: Node, ghost root: Root) returns (r: Node?)
    requires node.parent == node || (root.Valid() && node in root.nodes)
    ensures if node.parent == node then r == null else Precedes(root.Order(), node, r)
  {
    if node.parent == node {
      return null;
    }
    ghost var c, t := root.Focus(node);
    root.Around(c, t);
    if node.left != null {
      root.Descend(c, t, L);
      r := Rightmost(node.left, root, Step(c, L, t.n, t.red, t.r), t.l);
      FoundPrev(c, t, r);
      return;
    }
    r := ClimbPrev(node, root, c, t);
    FoundPrev(c, t, r);
  }

  /** The loop that goes up while it comes from the left. */
  method ClimbPrev(node0: Node, ghost root: Root, ghost c: Ctx, ghost t: Tree) returns (parent: Node?)
    requires root.At(c, t) && t.Fork? && t.n == node0
    ensures parent == if Before(c) == [] then null else Before(c)[|Before(c)| - 1]
  {
    var node := node0;
    parent := node.parent;
    ghost var c1, t1 := c, t;
    root.Around(c1, t1);
    root.Sides(c1, t1);
    while parent != null && node == parent.left
      invariant root.At(c1, t1) && t1.Fork? && t1.n == node && parent == CPtr(c1) && Before(c1) == Before(c)
      invariant c1.Step? ==> (node == parent.left <==> c1.side.L?)
      decreases Depth(c1)
    {
      root.Ascend(c1, t1);
      c1, t1 := c1.up, Mk(c1.side, t1, c1.p, c1.red, c1.sib);
      node := parent;
      root.Around(c1, t1);
      root.Sides(c1, t1);
      parent := node.parent;
    }
  }

  lemma {:induction false} FoundPrev(c: Ctx, t: Tree, r: Node?)
    requires t.Fork?
    requires var rest := Before(c) + Inorder(t.l); r == if rest == [] then null else rest[|rest| - 1]
    ensures Precedes(Inorder(Plug(c, t)), t.n, r)
  {
    MiddleOf(c, t);
    Middle(Before(c) + Inorder(t.l), t.n, Inorder(t.r) + After(c));
  }

  /** `rb_next`, then `rb_prev`: back where it started. */
  method NextThenPrev(node: Node, ghost root: Root) returns (y: Node?, z: Node?)
    requires root.Valid() && node in root.nodes
    ensures Follows(root.Order(), node, y) && (y != null ==> z == node)
  {
    NotAlone(root, node);
    y := Next(node, root);
    z := null;
    if y != null {
      OrderDistinct(root);
      Neighbours(root, node, y);
      z := Prev(y, root);
      ThereAndBack(root.Order(), node, y, z);
    }
  }

  /** `rb_prev`, then `rb_next`. */
  method PrevThenNext(node: Node, ghost root: Root) returns (y: Node?, z: Node?)
    requires root.Valid() && node in root.nodes
    ensures Precedes(root.Order(), node, y) && (y != null ==> z == node)
  {
    NotAlone(root, node);
    y := Prev(node, root);
    z := null;
    if y != null {
      OrderDistinct(root);
      Neighbours(root, node, y);
      z := Next(y, root);
      BackAndThere(root.Order(), node, y, z);
    }
  }

  /** The loop of `print_rbtree`: every node once, in order, and then it stops. */
  method WalkForward(root: Root) returns (out: seq<int>)
    requires root.Valid()
    ensures |out| == |root.Order()| && forall i :: 0 <= i < |out| ==> out[i] == root.Order()[i].num
  {
    ghost var s := root.Order();
    OrderDistinct(root);
    out := [];
    var node := First(root);
    while node != null
      invariant |out| <= |s| && node == (if |out| < |s| then s[|out|] else null)
      invariant forall i :: 0 <= i < |out| ==> out[i] == s[i].num
      decreases |s| - |out|
    {
      InTree(root, |out|);
      out := out + [node.num];
      node := Next(node, root);
      FollowsHere(s, |out| - 1, node);
    }
  }

  method WalkBackward(root: Root) returns (out: seq<int>)
    requires root.Valid()
    ensures |out| == |root.Order()| && forall i :: 0 <= i < |out| ==> out[i] == root.Order()[|out| - 1 - i].num
  {
    ghost var s := root.Order();
    OrderDistinct(root);
    out := [];
    var node := Last(root);
    while node != null
      invariant |out| <= |s| && node == (if |out| < |s| then s[|s| - 1 - |out|] else null)
      invariant forall i :: 0 <= i < |out| ==> out[i] == s[|s| - 1 - i].num
      decreases |s| - |out|
    {
      InTree(root, |s| - 1 - |out|);
      out := out + [node.num];
      node := Prev(node, root);
      PrecedesHere(s, |s| - |out|, node);
    }
  }

  lemma {:induction false} OrderDistinct(root: Root)
    requires root.Valid()
    ensures Distinct(root.Order())
  {
    InorderDistinct(root.tree);
    DistinctFromIndices(root.Order());
  }

  /** A node of the tree is not its own parent. */
  lemma {:induction false} NotAlone(root: Root, n: Node)
    requires root.Valid() && n in root.nodes
    ensures n.parent != n
  {
    var c, t := root.Focus(n);
    root.Around(c, t);
    if c.Step? {
      assert c.p in CSet(c);
    }
  }

  lemma {:induction false} InTree(root: Root, i: nat)
    requires root.Valid() && i < |root.Order()|
    ensures root.Order()[i] in root.nodes && root.Order()[i].parent != root.Order()[i]
  {
    InorderSet(root.tree);
    NotAlone(root, root.Order()[i]);
  }

  lemma {:induction false} Neighbours(root: Root, x: Node, y: Node)
    requires root.Valid() && (Follows(root.Order(), x, y) || Precedes(root.Order(), x, y))
    ensures y in root.nodes && y.parent != y
  {
    var s := root.Order();
    if Follows(s, x, y) {
      var i :| FollowsAt(s, i, x, y);
      InTree(root, i + 1);
    } else {
      var i :| PrecedesAt(s, i, x, y);
      InTree(root, i - 1);
    }
  }
}
