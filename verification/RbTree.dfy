/** `struct rb_root` and the code of rbtree.c that writes to the tree. */
module RbTree {
  import opened RbModel
  import opened RbBalance

  /** Where `rb_link_node` stores the new node: what a `struct rb_node **` points to. */
  datatype Link = AtRoot | LeftOf(n: Node) | RightOf(n: Node)

  ghost function LinkOf(c: Ctx): Link {
    if c.Top? then AtRoot else if c.side.L? then LeftOf(c.p) else RightOf(c.p)
  }

  class Root {
    var rb_node: Node?
    ghost var nodes: set<Node>
    ghost var tree: Tree
    /** How many rotations there have been. */
    ghost var turns: nat

    constructor ()
      ensures rb_node == null && nodes == {} && tree == Leaf && Valid()
    {
      rb_node, nodes, tree, turns := null, {}, Leaf, 0;
    }

    ghost function Memory(): (m: Mem)
      reads this`nodes, nodes
    {
      map n | n in nodes :: Cell(n.left, n.right, n.parent, n.red)
    }

    /** The heap holds `t` in the hole of `c`. */
    ghost predicate At(c: Ctx, t: Tree)
      reads this`rb_node, this`nodes, nodes
    {
      Zip(Memory(), rb_node, c, t)
    }

    /** The heap holds exactly `tree`, and `tree` is a red-black tree. */
    ghost predicate Valid()
      reads this`rb_node, this`nodes, this`tree, nodes
    {
      At(Top, tree) && nodes == Set(tree) && RedBlack(tree)
    }

    ghost function Order(): seq<Node>
      reads this`tree
    {
      Inorder(tree)
    }

    /** What the rotations rely on: the pointers they follow are there, and no two of the nodes are the same. */
    lemma {:induction false} RotationSites(c: Ctx, t: Tree, d: Side)
      requires At(c, t) && t.Fork? && Far(t, d).Fork?
      ensures var x, y, b, p := t.n, Far(t, d).n, Ptr(Near(Far(t, d), d)), CPtr(c);
        && {x, y} + Opt(b) + Opt(p) <= nodes
        && (if d.L? then x.right == y && y.left == b else x.left == y && y.right == b)
        && x.parent == p && x != y && b != x && b != y && (p != null ==> p != x && p != y && p != b)
        && (p != null ==> (p.left == x) != (p.right == x))
      ensures c.Top? <==> rb_node == t.n
    {
      var s := Far(t, d);
      var b := Near(s, d);
      assert Linked(Memory(), s, t.n) && Linked(Memory(), b, s.n);
      assert s.n in Set(s) && s.n in Set(t);
      assert b.Fork? ==> b.n in Set(b) && b.n in Set(s);
      if c.Step? {
        TopInside(c, t.n);
        assert c.p in CSet(c) && (c.sib.Fork? ==> c.sib.n in Set(c.sib));
      }
    }

    /** The code of `__rb_rotate_left`, as what it does to the cells. */
    method RotateLeftCells(node: Node)
      requires {node} + Opt(node.right) + Opt(node.parent) <= nodes
      requires node.right != null && node.right != node && node.right.left != node && node.right.left != node.right
      requires Opt(node.right.left) <= nodes
      requires node.parent != null ==>
        node.parent != node && node.parent != node.right && node.parent != node.right.left
      requires node.parent != null ==> (node.parent.left == node) != (node.parent.right == node)
      modifies `turns, `rb_node, nodes`left, nodes`right, nodes`parent
      ensures Turned(L, old(Memory()), Memory(), node, old(node.right), old(node.right.left), old(node.parent))
      ensures rb_node == if old(node.parent) == null then old(node.right) else old(rb_node)
      ensures turns == old(turns) + 1
    {
      turns := turns + 1;
      var right := node.right;
      var parent := node.parent;
      node.right := right.left;
      if right.left != null {
        right.left.parent := node;
      }
      right.left := node;
      right.parent := parent;
      if parent != null {
        if node == parent.left {
          parent.left := right;
        } else {
          parent.right := right;
        }
      } else {
        rb_node := right;
      }
      node.parent := right;
    }

    method RotateLeft(node: Node, ghost c: Ctx, ghost t: Tree)
      requires At(c, t) && t.Fork? && t.n == node && t.r.Fork?
      modifies `turns, `rb_node, nodes`left, nodes`right, nodes`parent
      ensures turns == old(turns) + 1
      ensures At(c, Turn(L, t))
      ensures Inorder(Turn(L, t)) == Inorder(t) && Set(Turn(L, t)) == Set(t)
    {
      ghost var m, root := Memory(), rb_node;
      RotationSites(c, t, L);
      RotateLeftCells(node);
      TurnZip(L, m, Memory(), root, rb_node, c, t);
    }

    /** The code of `__rb_rotate_right`, as what it does to the cells. */
    method RotateRightCells(node: Node)
      requires {node} + Opt(node.left) + Opt(node.parent) <= nodes
      requires node.left != null && node.left != node && node.left.right != node && node.left.right != node.left
      requires Opt(node.left.right) <= nodes
      requires node.parent != null ==> node.parent != node && node.parent != node.left && node.parent != node.left.right
      requires node.parent != null ==> (node.parent.left == node) != (node.parent.right == node)
      modifies `turns, `rb_node, nodes`left, nodes`right, nodes`parent
      ensures Turned(R, old(Memory()), Memory(), node, old(node.left), old(node.left.right), old(node.parent))
      ensures rb_node == if old(node.parent) == null then old(node.left) else old(rb_node)
      ensures turns == old(turns) + 1
    {
      turns := turns + 1;
      var left := node.left;
      var parent := node.parent;
      node.left := left.right;
      if left.right != null {
        left.right.parent := node;
      }
      left.right := node;
      left.parent := parent;
      if parent != null {
        if node == parent.right {
          parent.right := left;
        } else {
          parent.left := left;
        }
      } else {
        rb_node := left;
      }
      node.parent := left;
    }

    method RotateRight(node: Node, ghost c: Ctx, ghost t: Tree)
      requires At(c, t) && t.Fork? && t.n == node && t.l.Fork?
      modifies `turns, `rb_node, nodes`left, nodes`right, nodes`parent
      ensures turns == old(turns) + 1
      ensures At(c, Turn(R, t))
      ensures Inorder(Turn(R, t)) == Inorder(t) && Set(Turn(R, t)) == Set(t)
    {
      ghost var m, root := Memory(), rb_node;
      RotationSites(c, t, R);
      RotateRightCells(node);
      TurnZip(R, m, Memory(), root, rb_node, c, t);
    }

    /** `rb_set_red`, `rb_set_black` and `rb_set_color`. */
    method SetColor(n: Node, red: bool, ghost c: Ctx, ghost t: Tree)
      requires At(c, t) && t.Fork? && t.n == n
      modifies n`red
      ensures At(c, t.(red := red))
    {
      ghost var m := Memory();
      n.red := red;
      Repaint(m, Memory(), rb_node, c, t, red);
    }

    lemma {:induction false} Ascend(c: Ctx, t: Tree)
      requires At(c, t) && c.Step?
      ensures At(c.up, Mk(c.side, t, c.p, c.red, c.sib))
    {
      ZipUp(Memory(), rb_node, c, t);
    }

    lemma {:induction false} Descend(c: Ctx, t: Tree, d: Side)
      requires At(c, t) && t.Fork?
      ensures At(Step(c, d, t.n, t.red, Far(t, d)), Near(t, d))
    {
      ZipUp(Memory(), rb_node, Step(c, d, t.n, t.red, Far(t, d)), Near(t, d));
    }

    /** All the way up. */
    lemma {:induction false} Climb(c: Ctx, t: Tree) returns (t': Tree)
      requires At(c, t)
      ensures t' == Plug(c, t) && At(Top, t')
    {
      t' := Plug(c, t);
      PlugZip(Memory(), rb_node, c, t);
    }

    /** The pointers that the loops read around the hole. */
    lemma {:induction false} Around(c: Ctx, t: Tree)
      requires At(c, t)
      ensures Opt(Ptr(t)) + Opt(CPtr(c)) <= nodes
      ensures t.Fork? ==> t.n.left == Ptr(t.l) && t.n.right == Ptr(t.r) && t.n.red == t.red && t.n.parent == CPtr(c)
      ensures c.Step? ==> c.p.red == c.red && c.p.parent == CPtr(c.up) && Opt(Ptr(c.sib)) + Opt(CPtr(c.up)) <= nodes
      ensures c.Step? ==>
        (if c.side.L? then c.p.left == Ptr(t) && c.p.right == Ptr(c.sib)
        else c.p.right == Ptr(t) && c.p.left == Ptr(c.sib))
      ensures c.Step? && c.sib.Fork? ==>
        c.sib.n.red == c.sib.red && c.sib.n.left == Ptr(c.sib.l) && c.sib.n.right == Ptr(c.sib.r)
      ensures rb_node == Ptr(t) <==> c.Top?
    {
      if c.Step? {
        TopInside(c, Ptr(t));
        assert CLinked(Memory(), c.up, c.p);
        assert c.sib.Fork? ==> c.sib.n in Set(c.sib);
      }
    }

    /** What insertion reads around a node with a grandparent. */
    lemma {:induction false} Uncle(c: Ctx, t: Tree)
      requires At(c, t) && t.Fork? && c.Step? && c.up.Step?
      ensures {c.p, c.up.p} + Opt(Ptr(c.up.sib)) <= nodes && c.p.parent == c.up.p
      ensures (c.p == c.up.p.left <==> c.up.side.L?) && (c.p.left == t.n <==> c.side.L?)
        && (c.p.right == t.n <==> c.side.R?)
      ensures (if c.up.side.L? then c.up.p.right else c.up.p.left) == Ptr(c.up.sib)
      ensures c.up.sib.Fork? ==> c.up.sib.n.red == c.up.sib.red
      ensures At(c.up, Mk(c.side, t, c.p, c.red, c.sib))
    {
      Around(c, t);
      Ascend(c, t);
      Around(c.up, Mk(c.side, t, c.p, c.red, c.sib));
    }

    /** Red uncle: the three colour writes, `d` being the parent's side below the grandparent. */
    method Recolour(gparent: Node, parent: Node, uncle: Node, ghost d: Side, ghost g: Ctx, ghost t: Tree)
      requires At(g, t) && t.Fork? && t.n == gparent && Near(t, d).Fork? && Near(t, d).n == parent && Far(t, d).Fork?
        && Far(t, d).n == uncle
      modifies {gparent, parent, uncle}`red
      ensures At(g, Mk(d, Near(t, d).(red := false), gparent, true, Far(t, d).(red := false)))
    {
      ghost var p, u := Near(t, d), Far(t, d);
      Descend(g, t, Opp(d));
      SetColor(uncle, false, Step(g, Opp(d), gparent, t.red, p), u);
      Ascend(Step(g, Opp(d), gparent, t.red, p), u.(red := false));
      ghost var t1 := Mk(d, p, gparent, t.red, u.(red := false));
      Descend(g, t1, d);
      SetColor(parent, false, Step(g, d, gparent, t.red, u.(red := false)), p);
      Ascend(Step(g, d, gparent, t.red, u.(red := false)), p.(red := false));
      SetColor(gparent, true, g, Mk(d, p.(red := false), gparent, t.red, u.(red := false)));
    }

    /** Fault on the left of a left child, black uncle: two colour writes and a right rotation at the grandparent. */
    method InsertOuterLeft(parent: Node, gparent: Node, ghost c: Ctx, ghost t: Tree)
      returns (ghost c': Ctx)
      requires At(c, t) && InsertReady(c, t) && c.Step? && c.red && c.up.Step? && c.p == parent && c.up.p == gparent
      requires c.side.L? && c.up.side.L? && !IsRed(c.up.sib)
      modifies `turns, `rb_node, nodes`left, nodes`right, nodes`parent, nodes`red
      ensures At(c', t) && InsertReady(c', t) && SameOrder(c, t, c', t)
      ensures c' == Step(c.up.up, L, parent, false, Mk(L, c.sib, gparent, true, c.up.sib))
      ensures turns == old(turns) + 1
    {
      ghost var g := c.up.up;
      ghost var p := Mk(L, t, parent, true, c.sib);
      ghost var p' := p.(red := false);
      Ascend(c, t);
      SetColor(parent, false, c.up, p);
      Ascend(c.up, p');
      ghost var t1 := Mk(L, p', gparent, c.up.red, c.up.sib);
      SetColor(gparent, true, g, t1);
      ghost var t2 := t1.(red := true);
      RotateRight(gparent, g, t2);
      ghost var t3 := Turn(R, t2);
      Descend(g, t3, L);
      c' := Step(g, L, parent, false, Mk(L, c.sib, gparent, true, c.up.sib));
      InsertOuter(c, t);
      PlugSame(g, Mk(L, p, gparent, c.up.red, c.up.sib), t3);
    }

    /** Fault on the right of a left child: a left rotation at the parent puts it on the left. */
    method InsertInnerLeft(node: Node, parent: Node, ghost c: Ctx, ghost t: Tree)
      returns (ghost c': Ctx, ghost t': Tree)
      requires At(c, t) && InsertReady(c, t) && c.Step? && c.red && c.up.Step? && t.n == node && c.p == parent
      requires c.side.R? && c.up.side.L?
      modifies `turns, `rb_node, nodes`left, nodes`right, nodes`parent
      ensures At(c', t') && InsertReady(c', t') && SameOrder(c, t, c', t')
      ensures c' == Step(c.up, L, node, true, t.r) && t'.Fork? && t'.n == parent
      ensures turns == old(turns) + 1
    {
      ghost var p := Mk(R, t, parent, true, c.sib);
      Ascend(c, t);
      RotateLeft(parent, c.up, p);
      Descend(c.up, Turn(L, p), L);
      c', t' := Step(c.up, L, node, true, t.r), Mk(L, c.sib, parent, true, t.l);
      InsertInner(c, t);
      PlugSame(c.up, p, Turn(L, p));
    }

    /** Red uncle: three colour writes, and the fault is two levels up. */
    method InsertRedUncle(parent: Node, gparent: Node, uncle: Node, ghost c: Ctx, ghost t: Tree)
      returns (ghost t': Tree)
      requires At(c, t) && InsertReady(c, t) && c.Step? && c.red && c.up.Step? && c.p == parent && c.up.p == gparent
      requires IsRed(c.up.sib) && c.up.sib.n == uncle
      modifies nodes`red
      ensures At(c.up.up, t') && InsertReady(c.up.up, t') && t'.n == gparent && SameOrder(c, t, c.up.up, t')
    {
      ghost var d, p := c.up.side, Mk(c.side, t, parent, true, c.sib);
      Uncle(c, t);
      InsertRecolour(c, t);
      Ascend(c.up, p);
      ghost var t1 := Mk(d, p, gparent, c.up.red, c.up.sib);
      Recolour(gparent, parent, uncle, d, c.up.up, t1);
      t' := Mk(d, p.(red := false), gparent, true, c.up.sib.(red := false));
      PlugSame(c.up.up, t1, t');
    }

    method InsertStepLeft(node: Node, parent: Node, gparent: Node, ghost c: Ctx, ghost t: Tree)
      returns (node': Node, ghost c': Ctx, ghost t': Tree)
      requires At(c, t) && InsertReady(c, t) && c.Step? && c.red && c.up.Step?
      requires t.n == node && c.p == parent && c.up.p == gparent && c.up.side.L?
      modifies `turns, `rb_node, nodes`left, nodes`right, nodes`parent, nodes`red
      ensures At(c', t') && InsertReady(c', t') && t'.n == node' && SameOrder(c, t, c', t')
      ensures Depth(c') < Depth(c) && turns <= old(turns) + 2 && (turns == old(turns) || (c'.Step? && !c'.red))
    {
      Uncle(c, t);
      var uncle := gparent.right;
      if uncle != null && uncle.red {
        t' := InsertRedUncle(parent, gparent, uncle, c, t);
        return gparent, c.up.up, t';
      }
      if parent.right == node {
        c', t' := InsertInnerLeft(node, parent, c, t);
        c' := InsertOuterLeft(node, gparent, c', t');
        return parent, c', t';
      }
      c' := InsertOuterLeft(parent, gparent, c, t);
      return node, c', t;
    }

    /** Fault on the right of a right child, black uncle: two colour writes and a left rotation at the grandparent. */
    method InsertOuterRight(parent: Node, gparent: Node, ghost c: Ctx, ghost t: Tree)
      returns (ghost c': Ctx)
      requires At(c, t) && InsertReady(c, t) && c.Step? && c.red && c.up.Step? && c.p == parent && c.up.p == gparent
      requires c.side.R? && c.up.side.R? && !IsRed(c.up.sib)
      modifies `turns, `rb_node, nodes`left, nodes`right, nodes`parent, nodes`red
      ensures At(c', t) && InsertReady(c', t) && SameOrder(c, t, c', t)
      ensures c' == Step(c.up.up, R, parent, false, Mk(R, c.sib, gparent, true, c.up.sib))
      ensures turns == old(turns) + 1
    {
      ghost var g := c.up.up;
      ghost var p := Mk(R, t, parent, true, c.sib);
      ghost var p' := p.(red := false);
      Ascend(c, t);
      SetColor(parent, false, c.up, p);
      Ascend(c.up, p');
      ghost var t1 := Mk(R, p', gparent, c.up.red, c.up.sib);
      SetColor(gparent, true, g, t1);
      ghost var t2 := t1.(red := true);
      RotateLeft(gparent, g, t2);
      ghost var t3 := Turn(L, t2);
      Descend(g, t3, R);
      c' := Step(g, R, parent, false, Mk(R, c.sib, gparent, true, c.up.sib));
      InsertOuter(c, t);
      PlugSame(g, Mk(R, p, gparent, c.up.red, c.up.sib), t3);
    }

    /** Fault on the left of a right child: a right rotation at the parent puts it on the right. */
    method InsertInnerRight(node: Node, parent: Node, ghost c: Ctx, ghost t: Tree)
      returns (ghost c': Ctx, ghost t': Tree)
      requires At(c, t) && InsertReady(c, t) && c.Step? && c.red && c.up.Step? && t.n == node && c.p == parent
      requires c.side.L? && c.up.side.R?
      modifies `turns, `rb_node, nodes`left, nodes`right, nodes`parent
      ensures At(c', t') && InsertReady(c', t') && SameOrder(c, t, c', t')
      ensures c' == Step(c.up, R, node, true, t.l) && t'.Fork? && t'.n == parent
      ensures turns == old(turns) + 1
    {
      ghost var p := Mk(L, t, parent, true, c.sib);
      Ascend(c, t);
      RotateRight(parent, c.up, p);
      Descend(c.up, Turn(R, p), R);
      c', t' := Step(c.up, R, node, true, t.l), Mk(R, c.sib, parent, true, t.r);
      InsertInner(c, t);
      PlugSame(c.up, p, Turn(R, p));
    }

    method InsertStepRight(node: Node, parent: Node, gparent: Node, ghost c: Ctx, ghost t: Tree)
      returns (node': Node, ghost c': Ctx, ghost t': Tree)
      requires At(c, t) && InsertReady(c, t) && c.Step? && c.red && c.up.Step?
      requires t.n == node && c.p == parent && c.up.p == gparent && c.up.side.R?
      modifies `turns, `rb_node, nodes`left, nodes`right, nodes`parent, nodes`red
      ensures At(c', t') && InsertReady(c', t') && t'.n == node' && SameOrder(c, t, c', t')
      ensures Depth(c') < Depth(c) && turns <= old(turns) + 2 && (turns == old(turns) || (c'.Step? && !c'.red))
    {
      Uncle(c, t);
      var uncle := gparent.left;
      if uncle != null && uncle.red {
        t' := InsertRedUncle(parent, gparent, uncle, c, t);
        return gparent, c.up.up, t';
      }
      if parent.left == node {
        c', t' := InsertInnerRight(node, parent, c, t);
        c' := InsertOuterRight(node, gparent, c', t');
        return parent, c', t';
      }
      c' := InsertOuterRight(parent, gparent, c, t);
      return node, c', t;
    }

    /** From the one red-red fault that linking a red node may leave, back to a red-black tree. */
    method InsertColor(node0: Node, ghost c0: Ctx, ghost t0: Tree)
      requires At(c0, t0) && InsertReady(c0, t0) && t0.n == node0 && nodes == Set(Plug(c0, t0))
      modifies this`turns, this`rb_node, this`tree, nodes
      ensures Valid() && Order() == Inorder(Plug(c0, t0))
      ensures turns <= old(turns) + 2
    {
      var node := node0;
      ghost var c, t := c0, t0;
      Around(c, t);
      var parent := node.parent;
      while parent != null && parent.red
        invariant At(c, t) && InsertReady(c, t) && t.n == node && parent == CPtr(c) && (c.Step? ==> parent.red == c.red)
        invariant SameOrder(c0, t0, c, t)
        invariant turns <= old(turns) + 2 && (turns == old(turns) || (c.Step? && !c.red))
        decreases Depth(c)
      {
        InsertGrandparent(c, t);
        Uncle(c, t);
        var gparent := parent.parent;
        if parent == gparent.left {
          node, c, t := InsertStepLeft(node, parent, gparent, c, t);
        } else {
          node, c, t := InsertStepRight(node, parent, gparent, c, t);
        }
        Around(c, t);
        parent := node.parent;
      }
      InsertFinish(c, t);
    }

    /** `rb_set_black(root->rb_node)`. */
    method InsertFinish(ghost c: Ctx, ghost t: Tree)
      requires At(c, t) && InsertReady(c, t) && (c.Step? ==> !c.red) && nodes == Set(Plug(c, t))
      modifies this`tree, nodes`red
      ensures Valid() && Order() == Inorder(Plug(c, t))
    {
      InsertDone(c, t);
      PlugZip(Memory(), rb_node, c, t);
      tree := Plug(c, t);
      SetColor(rb_node, false, Top, tree);
      tree := tree.(red := false);
    }

    // ----- erasure

    /** A colour write at the node above the hole, and one at the hole's sibling. */
    method PaintParent(parent: Node, red: bool, ghost c: Ctx, ghost t: Tree)
      requires At(c, t) && c.Step? && c.p == parent
      modifies parent`red
      ensures At(c.(red := red), t)
    {
      ghost var p := Mk(c.side, t, c.p, c.red, c.sib);
      Ascend(c, t);
      SetColor(parent, red, c.up, p);
      Descend(c.up, p.(red := red), c.side);
    }

    method PaintSibling(other: Node, red: bool, ghost c: Ctx, ghost t: Tree)
      requires At(c, t) && c.Step? && c.sib.Fork? && c.sib.n == other
      modifies other`red
      ensures At(c.(sib := c.sib.(red := red)), t)
    {
      Ascend(c, t);
      ghost var c1 := Step(c.up, Opp(c.side), c.p, c.red, t);
      Descend(c.up, Mk(c.side, t, c.p, c.red, c.sib), Opp(c.side));
      SetColor(other, red, c1, c.sib);
      Ascend(c1, c.sib.(red := red));
      Descend(c.up, Mk(c.side, t, c.p, c.red, c.sib.(red := red)), c.side);
    }

    /** A colour write at a child of the node in the hole. */
    method PaintKid(kid: Node, red: bool, ghost d: Side, ghost c: Ctx, ghost t: Tree)
      requires At(c, t) && t.Fork? && Near(t, d).Fork? && Near(t, d).n == kid
      modifies kid`red
      ensures At(c, Mk(d, Near(t, d).(red := red), t.n, t.red, Far(t, d)))
    {
      Descend(c, t, d);
      SetColor(kid, red, Step(c, d, t.n, t.red, Far(t, d)), Near(t, d));
      Ascend(Step(c, d, t.n, t.red, Far(t, d)), Near(t, d).(red := red));
    }

    /** What erasure reads around a sibling. */
    lemma {:induction false} Nephews(c: Ctx, t: Tree)
      requires At(c, t) && c.Step? && c.sib.Fork?
      ensures var s := c.sib;
        && {c.p, s.n} + Opt(Ptr(s.l)) + Opt(Ptr(s.r)) <= nodes && s.n.left == Ptr(s.l) && s.n.right == Ptr(s.r)
        && (s.l.Fork? ==> s.l.n.red == s.l.red) && (s.r.Fork? ==> s.r.n.red == s.r.red)
        && s.n.red == s.red && c.p.red == c.red
    {
      assert Linked(Memory(), c.sib, c.p) && Linked(Memory(), c.sib.l, c.sib.n) && Linked(Memory(), c.sib.r, c.sib.n);
    }

    /** Black sibling with one red child, the near one: the two colour writes. */
    method PaintInner(other: Node, near: Node, ghost c: Ctx, ghost t: Tree)
      requires At(c, t) && c.Step? && c.sib.Fork? && c.sib.n == other
      requires Near(c.sib, c.side).Fork? && Near(c.sib, c.side).n == near
      modifies {other, near}`red
      ensures var s := c.sib;
        At(c.(sib := Mk(c.side, Near(s, c.side).(red := false), other, true, Far(s, c.side))), t)
    {
      ghost var d, s := c.side, c.sib;
      ghost var c1 := Step(c.up, Opp(d), c.p, c.red, t);
      Ascend(c, t);
      Descend(c.up, Mk(d, t, c.p, c.red, s), Opp(d));
      PaintKid(near, false, d, c1, s);
      ghost var s1 := Mk(d, Near(s, d).(red := false), other, s.red, Far(s, d));
      SetColor(other, true, c1, s1);
      Ascend(c1, s1.(red := true));
      Descend(c.up, Mk(d, t, c.p, c.red, s1.(red := true)), d);
    }

    /** Black sibling whose far child is red: the three colour writes. */
    method PaintOuter(other: Node, parent: Node, far: Node, ghost c: Ctx, ghost t: Tree)
      requires At(c, t) && c.Step? && c.p == parent && c.sib.Fork? && c.sib.n == other
      requires Far(c.sib, c.side).Fork? && Far(c.sib, c.side).n == far
      modifies {other, parent, far}`red
      ensures At(c.up, OuterPainted(c, t))
    {
      ghost var d, s := c.side, c.sib;
      ghost var s1 := s.(red := c.red);
      Around(c, t);
      PaintSibling(other, parent.red, c, t);
      PaintParent(parent, false, c.(sib := s1), t);
      ghost var c1 := c.(red := false, sib := s1);
      Ascend(c1, t);
      Descend(c.up, Mk(d, t, parent, false, s1), Opp(d));
      PaintKid(far, false, Opp(d), Step(c.up, Opp(d), parent, false, t), s1);
      ghost var s2 := Mk(d, Near(s, d), other, c.red, Far(s, d).(red := false));
      Ascend(Step(c.up, Opp(d), parent, false, t), s2);
    }

    lemma {:induction false} SiblingSame(c: Ctx, t: Tree, red: bool, sib: Tree)
      requires c.Step? && Inorder(sib) == Inorder(c.sib) && Set(sib) == Set(c.sib)
      ensures SameOrder(c, t, c.(red := red, sib := sib), t)
    {
      PlugSame(c.up, Mk(c.side, t, c.p, c.red, c.sib), Mk(c.side, t, c.p, red, sib));
    }

    /** Red sibling of a left hole. */
    method EraseRedLeft(other: Node, parent: Node, ghost c: Ctx, ghost t: Tree)
      returns (ghost c': Ctx)
      requires At(c, t) && EraseReady(c, t) && c.Step? && c.side.L? && IsRed(c.sib) && c.p == parent && c.sib.n == other
      modifies `turns, `rb_node, nodes`left, nodes`right, nodes`parent, nodes`red
      ensures At(c', t) && EraseReady(c', t) && SameOrder(c, t, c', t)
      ensures c' == Step(Step(c.up, L, other, false, c.sib.r), L, parent, true, c.sib.l) && !IsRed(c'.sib)
      ensures turns == old(turns) + 1
    {
      EraseSibling(c, t);
      EraseRedSibling(c, t);
      ghost var s := c.sib.(red := false);
      PaintSibling(other, false, c, t);
      PaintParent(parent, true, c.(sib := s), t);
      ghost var p := Mk(L, t, parent, true, s);
      Ascend(c.(sib := s, red := true), t);
      RotateLeft(parent, c.up, p);
      PlugSame(c.up, Mk(L, t, parent, c.red, c.sib), Turn(L, p));
      c' := Step(c.up, L, other, false, c.sib.r);
      Descend(c.up, Turn(L, p), L);
      Descend(c', Mk(L, t, parent, true, c.sib.l), L);
      c' := Step(c', L, parent, true, c.sib.l);
    }

    /** Red sibling of a right hole. */
    method EraseRedRight(other: Node, parent: Node, ghost c: Ctx, ghost t: Tree)
      returns (ghost c': Ctx)
      requires At(c, t) && EraseReady(c, t) && c.Step? && c.side.R? && IsRed(c.sib) && c.p == parent && c.sib.n == other
      modifies `turns, `rb_node, nodes`left, nodes`right, nodes`parent, nodes`red
      ensures At(c', t) && EraseReady(c', t) && SameOrder(c, t, c', t)
      ensures c' == Step(Step(c.up, R, other, false, c.sib.l), R, parent, true, c.sib.r) && !IsRed(c'.sib)
      ensures turns == old(turns) + 1
    {
      EraseSibling(c, t);
      EraseRedSibling(c, t);
      ghost var s := c.sib.(red := false);
      PaintSibling(other, false, c, t);
      PaintParent(parent, true, c.(sib := s), t);
      ghost var p := Mk(R, t, parent, true, s);
      Ascend(c.(sib := s, red := true), t);
      RotateRight(parent, c.up, p);
      PlugSame(c.up, Mk(R, t, parent, c.red, c.sib), Turn(R, p));
      c' := Step(c.up, R, other, false, c.sib.l);
      Descend(c.up, Turn(R, p), R);
      Descend(c', Mk(R, t, parent, true, c.sib.r), R);
      c' := Step(c', R, parent, true, c.sib.r);
    }

    /** Black sibling of a left hole, red left child, black right child. */
    method EraseInnerLeft(other: Node, ghost c: Ctx, ghost t: Tree)
      returns (ghost c': Ctx)
      requires At(c, t) && EraseReady(c, t) && c.Step? && c.side.L? && c.sib.Fork? && !c.sib.red && c.sib.n == other
      requires IsRed(c.sib.l) && !IsRed(c.sib.r)
      modifies `turns, `rb_node, nodes`left, nodes`right, nodes`parent, nodes`red
      ensures At(c', t) && EraseReady(c', t) && SameOrder(c, t, c', t)
      ensures c'.Step? && c' == c.(sib := c'.sib) && c'.sib.Fork? && !c'.sib.red && IsRed(c'.sib.r)
      ensures turns == old(turns) + 1
    {
      EraseInner(c, t);
      Nephews(c, t);
      PaintInner(other, other.left, c, t);
      ghost var s := Mk(L, c.sib.l.(red := false), other, true, c.sib.r);
      ghost var c1 := Step(c.up, R, c.p, c.red, t);
      Ascend(c.(sib := s), t);
      Descend(c.up, Mk(L, t, c.p, c.red, s), R);
      RotateRight(other, c1, s);
      ghost var s' := Turn(R, s);
      Ascend(c1, s');
      Descend(c.up, Mk(L, t, c.p, c.red, s'), L);
      SiblingSame(c, t, c.red, s');
      c' := c.(sib := s');
    }

    /** Black sibling of a left hole, red right child: the last rotation. */
    method EraseOuterLeft(other: Node, parent: Node, ghost c: Ctx, ghost t: Tree)
      returns (ghost t': Tree)
      requires At(c, t) && EraseReady(c, t) && !IsRed(t) && c.Step? && c.side.L? && c.p == parent
      requires c.sib.Fork? && !c.sib.red && c.sib.n == other && IsRed(c.sib.r)
      modifies `turns, `rb_node, nodes`left, nodes`right, nodes`parent, nodes`red
      ensures At(Top, t') && RedBlack(t') && SameOrder(c, t, Top, t')
      ensures turns == old(turns) + 1
    {
      Nephews(c, t);
      PaintOuter(other, parent, other.right, c, t);
      RotateLeft(parent, c.up, OuterPainted(c, t));
      OuterTurned(c, t);
      t' := Climb(c.up, Turn(L, OuterPainted(c, t)));
    }

    /** The loop's body once the sibling of a left hole is black; `done` is the loop's break. */
    method EraseBlackLeft(other0: Node, parent: Node, ghost c: Ctx, ghost t: Tree)
      returns (done: bool, ghost c': Ctx, ghost t': Tree)
      requires At(c, t) && EraseReady(c, t) && !IsRed(t) && c.Step? && c.side.L? && c.p == parent
      requires c.sib.Fork? && !c.sib.red && c.sib.n == other0
      modifies `turns, `rb_node, nodes`left, nodes`right, nodes`parent, nodes`red
      ensures At(c', t') && SameOrder(c, t, c', t')
      ensures done ==> c'.Top? && RedBlack(t') && turns <= old(turns) + 2
      ensures !done ==>
        EraseReady(c', t') && c' == c.up && t'.Fork? && t'.n == parent && t'.red == c.red && turns == old(turns)
    {
      var other := other0;
      Nephews(c, t);
      if (other.left == null || !other.left.red) && (other.right == null || !other.right.red) {
        ghost var s := c.sib.(red := true);
        EraseRecolour(c, t);
        PaintSibling(other, true, c, t);
        SiblingSame(c, t, c.red, s);
        Ascend(c.(sib := s), t);
        return false, c.up, Mk(L, t, parent, c.red, s);
      }
      c' := c;
      if other.right == null || !other.right.red {
        c' := EraseInnerLeft(other, c, t);
        Around(c', t);
        other := parent.right;
      }
      t' := EraseOuterLeft(other, parent, c', t);
      return true, Top, t';
    }

    /** One turn of the loop with a left hole. */
    method EraseStepLeft(parent: Node, ghost c: Ctx, ghost t: Tree)
      returns (done: bool, ghost c': Ctx, ghost t': Tree)
      requires At(c, t) && EraseReady(c, t) && !IsRed(t) && c.Step? && c.side.L? && c.p == parent
      modifies `turns, `rb_node, nodes`left, nodes`right, nodes`parent, nodes`red
      ensures At(c', t') && SameOrder(c, t, c', t')
      ensures done ==> c'.Top? && RedBlack(t') && turns <= old(turns) + 3
      ensures !done ==> EraseReady(c', t') && t'.Fork? && t'.n == parent
      ensures !done ==> if turns == old(turns) then Depth(c') < Depth(c) else turns == old(turns) + 1 && IsRed(t')
    {
      EraseSibling(c, t);
      Around(c, t);
      var other := parent.right;
      if other.red {
        ghost var c1 := EraseRedLeft(other, parent, c, t);
        EraseSibling(c1, t);
        Around(c1, t);
        other := parent.right;
        done, c', t' := EraseBlackLeft(other, parent, c1, t);
      } else {
        done, c', t' := EraseBlackLeft(other, parent, c, t);
      }
    }

    /** Black sibling of a right hole, red right child, black left child. */
    method EraseInnerRight(other: Node, ghost c: Ctx, ghost t: Tree)
      returns (ghost c': Ctx)
      requires At(c, t) && EraseReady(c, t) && c.Step? && c.side.R? && c.sib.Fork? && !c.sib.red && c.sib.n == other
      requires IsRed(c.sib.r) && !IsRed(c.sib.l)
      modifies `turns, `rb_node, nodes`left, nodes`right, nodes`parent, nodes`red
      ensures At(c', t) && EraseReady(c', t) && SameOrder(c, t, c', t)
      ensures c'.Step? && c' == c.(sib := c'.sib) && c'.sib.Fork? && !c'.sib.red && IsRed(c'.sib.l)
      ensures turns == old(turns) + 1
    {
      EraseInner(c, t);
      Nephews(c, t);
      PaintInner(other, other.right, c, t);
      ghost var s := Mk(R, c.sib.r.(red := false), other, true, c.sib.l);
      ghost var c1 := Step(c.up, L, c.p, c.red, t);
      Ascend(c.(sib := s), t);
      Descend(c.up, Mk(R, t, c.p, c.red, s), L);
      RotateLeft(other, c1, s);
      ghost var s' := Turn(L, s);
      Ascend(c1, s');
      Descend(c.up, Mk(R, t, c.p, c.red, s'), R);
      SiblingSame(c, t, c.red, s');
      c' := c.(sib := s');
    }

    /** Black sibling of a right hole, red left child: the last rotation. */
    method EraseOuterRight(other: Node, parent: Node, ghost c: Ctx, ghost t: Tree)
      returns (ghost t': Tree)
      requires At(c, t) && EraseReady(c, t) && !IsRed(t) && c.Step? && c.side.R? && c.p == parent
      requires c.sib.Fork? && !c.sib.red && c.sib.n == other && IsRed(c.sib.l)
      modifies `turns, `rb_node, nodes`left, nodes`right, nodes`parent, nodes`red
      ensures At(Top, t') && RedBlack(t') && SameOrder(c, t, Top, t')
      ensures turns == old(turns) + 1
    {
      Nephews(c, t);
      PaintOuter(other, parent, other.left, c, t);
      RotateRight(parent, c.up, OuterPainted(c, t));
      OuterTurned(c, t);
      t' := Climb(c.up, Turn(R, OuterPainted(c, t)));
    }

    /** The loop's body once the sibling of a right hole is black; `done` is the loop's break. */
    method EraseBlackRight(other0: Node, parent: Node, ghost c: Ctx, ghost t: Tree)
      returns (done: bool, ghost c': Ctx, ghost t': Tree)
      requires At(c, t) && EraseReady(c, t) && !IsRed(t) && c.Step? && c.side.R? && c.p == parent
      requires c.sib.Fork? && !c.sib.red && c.sib.n == other0
      modifies `turns, `rb_node, nodes`left, nodes`right, nodes`parent, nodes`red
      ensures At(c', t') && SameOrder(c, t, c', t')
      ensures done ==> c'.Top? && RedBlack(t') && turns <= old(turns) + 2
      ensures !done ==>
        EraseReady(c', t') && c' == c.up && t'.Fork? && t'.n == parent && t'.red == c.red && turns == old(turns)
    {
      var other := other0;
      Nephews(c, t);
      if (other.left == null || !other.left.red) && (other.right == null || !other.right.red) {
        ghost var s := c.sib.(red := true);
        EraseRecolour(c, t);
        PaintSibling(other, true, c, t);
        SiblingSame(c, t, c.red, s);
        Ascend(c.(sib := s), t);
        return false, c.up, Mk(R, t, parent, c.red, s);
      }
      c' := c;
      if other.left == null || !other.left.red {
        c' := EraseInnerRight(other, c, t);
        Around(c', t);
        other := parent.left;
      }
      t' := EraseOuterRight(other, parent, c', t);
      return true, Top, t';
    }

    /** One turn of the loop with a right hole. */
    method EraseStepRight(parent: Node, ghost c: Ctx, ghost t: Tree)
      returns (done: bool, ghost c': Ctx, ghost t': Tree)
      requires At(c, t) && EraseReady(c, t) && !IsRed(t) && c.Step? && c.side.R? && c.p == parent
      modifies `turns, `rb_node, nodes`left, nodes`right, nodes`parent, nodes`red
      ensures At(c', t') && SameOrder(c, t, c', t')
      ensures done ==> c'.Top? && RedBlack(t') && turns <= old(turns) + 3
      ensures !done ==> EraseReady(c', t') && t'.Fork? && t'.n == parent
      ensures !done ==> if turns == old(turns) then Depth(c') < Depth(c) else turns == old(turns) + 1 && IsRed(t')
    {
      EraseSibling(c, t);
      Around(c, t);
      var other := parent.left;
      if other.red {
        ghost var c1 := EraseRedRight(other, parent, c, t);
        EraseSibling(c1, t);
        Around(c1, t);
        other := parent.left;
        done, c', t' := EraseBlackRight(other, parent, c1, t);
      } else {
        done, c', t' := EraseBlackRight(other, parent, c, t);
      }
    }

    lemma {:induction false} HoleSides(c: Ctx, t: Tree)
      requires At(c, t) && c.Step? && t.Fork?
      ensures (c.p.left == t.n) != (c.p.right == t.n)
    {
      assert c.sib.Fork? ==> c.sib.n in Set(c.sib);
    }

    lemma {:induction false} Sides(c: Ctx, t: Tree)
      requires At(c, t) && t.Fork?
      ensures c.Step? ==> (c.p.left == t.n <==> c.side.L?) && (c.p.right == t.n <==> c.side.R?)
    {
      if c.Step? {
        HoleSides(c, t);
      }
    }

    /** Where a node of the tree stands. */
    lemma {:induction false} Focus(n: Node) returns (c: Ctx, t: Tree)
      requires Valid() && n in nodes
      ensures At(c, t) && t.Fork? && t.n == n && Plug(c, t) == tree
    {
      c, t := Locate(Top, tree, n).0, Locate(Top, tree, n).1;
      PlugZip(Memory(), rb_node, c, t);
    }

    /** What a valid tree means for the pointers and colours of each of its nodes. */
    lemma {:induction false} NodeMeans(n: Node)
      requires Valid() && n in nodes
      ensures rb_node != null && rb_node in nodes && !rb_node.red && (n.parent == null <==> n == rb_node)
      ensures n.left != null ==> n.left in nodes && n.left.parent == n && (n.red ==> !n.left.red)
      ensures n.right != null ==> n.right in nodes && n.right.parent == n && (n.red ==> !n.right.red)
      ensures n.parent != null ==> n.parent in nodes && (n.parent.left == n) != (n.parent.right == n)
    {
      var c, t := Focus(n);
      Around(c, t);
      Around(Top, tree);
      PlugRedBlack(c, t);
      if c.Step? {
        HoleSides(c, t);
      }
      if t.l.Fork? {
        Descend(c, t, L);
        Around(Step(c, L, t.n, t.red, t.r), t.l);
      }
      if t.r.Fork? {
        Descend(c, t, R);
        Around(Step(c, R, t.n, t.red, t.l), t.r);
      }
    }

    lemma {:induction false} HoleSide(c: Ctx, t: Tree)
      requires At(c, t) && c.Step? && (c.sib.Fork? || t.Fork?)
      ensures c.p.left == Ptr(t) <==> c.side.L?
    {
      assert c.sib.Fork? ==> c.sib.n in Set(c.sib);
    }

    /** One turn of the loop. */
    method EraseStep(node: Node?, parent: Node, ghost c: Ctx, ghost t: Tree)
      returns (done: bool, ghost c': Ctx, ghost t': Tree)
      requires At(c, t) && EraseReady(c, t) && !IsRed(t) && c.Step? && c.p == parent && node == Ptr(t)
      modifies `turns, `rb_node, nodes`left, nodes`right, nodes`parent, nodes`red
      ensures At(c', t') && SameOrder(c, t, c', t')
      ensures done ==> c'.Top? && RedBlack(t') && turns <= old(turns) + 3
      ensures !done ==> EraseReady(c', t') && t'.Fork? && t'.n == parent
      ensures !done ==> if turns == old(turns) then Depth(c') < Depth(c) else turns == old(turns) + 1 && IsRed(t')
    {
      EraseSibling(c, t);
      HoleSide(c, t);
      Around(c, t);
      if parent.left == node {
        done, c', t' := EraseStepLeft(parent, c, t);
      } else {
        done, c', t' := EraseStepRight(parent, c, t);
      }
    }

    /** `__rb_erase_color`. */
    method EraseColor(node0: Node?, parent0: Node?, ghost c0: Ctx, ghost t0: Tree)
      requires At(c0, t0) && EraseReady(c0, t0) && node0 == Ptr(t0) && parent0 == CPtr(c0) && nodes == Set(Plug(c0, t0))
      modifies this`turns, this`rb_node, this`tree, nodes`left, nodes`right, nodes`parent, nodes`red
      ensures Valid() && Order() == Inorder(Plug(c0, t0))
      ensures turns <= old(turns) + 3
    {
      var node, parent := node0, parent0;
      ghost var c, t, done := c0, t0, false;
      Around(c, t);
      while (node == null || !node.red) && node != rb_node
        invariant At(c, t) && EraseReady(c, t) && node == Ptr(t) && parent == CPtr(c) && SameOrder(c0, t0, c, t)
        invariant node != null ==> node.red == t.red
        invariant node == rb_node <==> c.Top?
        invariant turns == old(turns) || (turns == old(turns) + 1 && IsRed(t))
        decreases if IsRed(t) then 0 else 1 + Depth(c)
      {
        var stop;
        stop, c, t := EraseStep(node, parent, c, t);
        Around(c, t);
        if stop {
          node, done := rb_node, true;
          break;
        }
        node := parent;
        parent := node.parent;
      }
      if !done {
        EraseDone(c, t);
      }
      EraseFinish(node, c, t);
    }

    /** `if (node) rb_set_black(node)`. */
    method EraseFinish(node: Node?, ghost c: Ctx, ghost t: Tree)
      requires At(c, t) && node == Ptr(t) && nodes == Set(Plug(c, t))
      requires RedBlack(Plug(c, if t.Fork? then t.(red := false) else t))
      modifies this`tree, nodes`red
      ensures Valid() && Order() == Inorder(Plug(c, t))
    {
      ghost var t' := t;
      Around(c, t);
      if node != null {
        SetColor(node, false, c, t);
        t' := t.(red := false);
        PlugSame(c, t, t');
      }
      Regard(c, t');
    }

    /** The tree that the heap holds is a red-black tree, and is the tree of this root from here on. */
    ghost method Regard(c: Ctx, t: Tree)
      requires At(c, t) && nodes == Set(Plug(c, t)) && RedBlack(Plug(c, t))
      modifies this`tree
      ensures Valid() && tree == Plug(c, t)
    {
      PlugZip(Memory(), rb_node, c, t);
      tree := Plug(c, t);
    }

    /** The writes of `rb_erase` when `node` has at most one child. */
    method SpliceCells(node: Node, child: Node?)
      requires {node} + Opt(child) + Opt(node.parent) <= nodes
      requires child != node && node.parent != node && (node.parent != null ==> node.parent != child)
      requires node.parent != null ==> (node.parent.left == node) != (node.parent.right == node)
      modifies `rb_node, nodes`left, nodes`right, nodes`parent
      ensures Unhooked(old(Memory()), Memory(), node, child, old(node.parent))
      ensures rb_node == if old(node.parent) == null then child else old(rb_node)
    {
      var parent := node.parent;
      if child != null {
        child.parent := parent;
      }
      if parent != null {
        if parent.left == node {
          parent.left := child;
        } else {
          parent.right := child;
        }
      } else {
        rb_node := child;
      }
    }

    method Splice(node: Node, child: Node?, ghost c: Ctx, ghost t: Tree, ghost ch: Tree)
      requires At(c, t) && t.Fork? && t.n == node && child == Ptr(ch)
      requires (ch == t.l && t.r.Leaf?) || (ch == t.r && t.l.Leaf?)
      modifies `rb_node, nodes`left, nodes`right, nodes`parent
      ensures At(c, ch)
    {
      ghost var m, root := Memory(), rb_node;
      assert Set(ch) <= Set(t) && t.n !in Set(ch) && Linked(m, ch, node);
      assert ch.Fork? ==> ch.n in Set(ch);
      assert c.Step? ==> c.p in CSet(c);
      Around(c, t);
      if c.Step? {
        HoleSides(c, t);
      }
      SpliceCells(node, child);
      UnhookZip(m, Memory(), root, rb_node, c, t, ch);
    }

    /** The first write when `node` is to take the place of `old`. */
    method HookIn(old': Node, node: Node)
      requires {old', node} + Opt(old'.parent) <= nodes && old'.parent != old'
      requires old'.parent != null ==> (old'.parent.left == old') != (old'.parent.right == old')
      modifies `rb_node, nodes`left, nodes`right
      ensures Memory() == Hooked(old(Memory()), old'.parent, old', node)
      ensures rb_node == if old'.parent == null then node else old(rb_node)
    {
      ghost var m := Memory();
      if old'.parent != null {
        if old'.parent.left == old' {
          old'.parent.left := node;
        } else {
          old'.parent.right := node;
        }
      } else {
        rb_node := node;
      }
    }

    /** The last writes: `node` takes `old`'s parent, colour and left child. */
    method TakeOver(old': Node, node: Node)
      requires {old', node} + Opt(old'.left) <= nodes && old'.left != null && old'.left != node && old' != node
        && old'.left != old'
      modifies nodes`left, nodes`parent, nodes`red
      ensures Memory() == TakenOver(old(Memory()), old', node, old(old'.left))
    {
      node.parent, node.red := old'.parent, old'.red;
      node.left := old'.left;
      old'.left.parent := node;
    }

    /** `node` leaves its place to its right child. */
    method CutOut(parent: Node, child: Node?)
      requires {parent} + Opt(child) <= nodes && child != parent
      modifies nodes`left, nodes`parent
      ensures Memory() == Cut(old(Memory()), parent, child)
    {
      if child != null {
        child.parent := parent;
      }
      parent.left := child;
    }

    /** `node` gets `old`'s right child. */
    method AdoptRight(old': Node, node: Node)
      requires {old', node} + Opt(old'.right) <= nodes && old'.right != null && old'.right != old' && old' != node
        && old'.right != node
      modifies nodes`right, nodes`parent
      ensures Memory() == Adopted(old(Memory()), node, old(old'.right)) && old'.right == old(old'.right)
    {
      node.right := old'.right;
      old'.right.parent := node;
    }

    /** The leftmost node is one of the tree's, and it is the root when there is nothing on the left. */
    lemma {:induction false} LeastNode(t: Tree)
      requires t.Fork? && Wf(t)
      ensures MinTree(t).Fork? && MinTree(t).n in Set(t) && (t.n == MinTree(t).n <==> t.l.Leaf?)
    {
      DropMinOrder(t);
      if t.l.Fork? {
        DropMinOrder(t.l);
      }
    }

    /** What the splice of a node with two children relies on. */
    lemma {:induction false} SpliceSites(c: Ctx, t: Tree)
      requires At(c, t) && t.Fork? && t.l.Fork? && t.r.Fork?
      ensures var x, l, r, p, y := t.n, t.l.n, t.r.n, CPtr(c), MinTree(t.r).n;
        && {x, l, r, y} + Opt(p) <= nodes && x.left == l && x.right == r && x.parent == p && x.red == t.red
        && l !in {x, r, y} && x !in {r, y} && (p != null ==> p !in {x, l, r, y} && (p.left == x) != (p.right == x))
        && (r == y <==> t.r.l.Leaf?)
    {
      assert t.l.n in Set(t.l) && t.r.n in Set(t.r) && Wf(t.r);
      LeastNode(t.r);
      LinkedKeys(Memory(), t, CPtr(c));
      assert Linked(Memory(), t.l, t.n) && Linked(Memory(), t.r, t.n);
      if c.Step? {
        HoleSides(c, t);
        assert c.p in CSet(c);
      }
    }

    /** The leftmost node below the right child of a node with two children. */
    method Successor(old': Node, ghost c: Ctx, ghost t: Tree) returns (node: Node)
      requires At(c, t) && t.Fork? && t.r.Fork? && old' == t.n
      ensures node == MinTree(t.r).n
    {
      ghost var c1, t1 := Step(c, R, t.n, t.red, t.l), t.r;
      Around(c, t);
      Descend(c, t, R);
      Around(c1, t1);
      node := old'.right;
      var left := node.left;
      while left != null
        invariant At(c1, t1) && t1.Fork? && t1.n == node && MinTree(t1) == MinTree(t.r) && left == Ptr(t1.l)
        decreases t1
      {
        Descend(c1, t1, L);
        c1, t1 := Step(c1, L, t1.n, t1.red, t1.r), t1.l;
        Around(c1, t1);
        node := left;
        left := node.left;
      }
    }

    /** `node`, the successor of `old`, moves into `old`'s place. */
    method SwapIn(old': Node, node: Node, ghost c: Ctx, ghost t: Tree)
      returns (child: Node?, parent: Node, red: bool)
      requires At(c, t) && t.Fork? && t.l.Fork? && t.r.Fork? && old' == t.n && node == MinTree(t.r).n
      modifies `rb_node, nodes`left, nodes`right, nodes`parent, nodes`red
      ensures At(c, Fork(t.l, node, t.red, DropMin(t.r)))
      ensures child == Ptr(MinTree(t.r).r) && red == MinTree(t.r).red
      ensures parent == CPtr(MinCtx(Step(c, R, node, t.red, t.l), t.r))
    {
      ghost var m, root := Memory(), rb_node;
      SpliceSites(c, t);
      SuccessorCell(c, t, node);
      HookIn(old', node);
      child := node.right;
      parent := node.parent;
      red := node.red;
      if parent == old' {
        NearZip(m, root, rb_node, c, t);
        parent := node;
        TakeOver(old', node);
      } else {
        SwapDeep(old', node, parent, child, m, root, c, t);
      }
    }

    lemma {:induction false} SuccessorCell(c: Ctx, t: Tree, node: Node)
      requires At(c, t) && t.Fork? && t.l.Fork? && t.r.Fork? && node == MinTree(t.r).n
      ensures node in nodes && node.right == Ptr(MinTree(t.r).r) && node.red == MinTree(t.r).red
      ensures var p := CPtr(MinCtx(Step(c, R, node, t.red, t.l), t.r));
        && (t.r.l.Leaf? ==> node.parent == t.n && p == node)
        && (t.r.l.Fork? ==> p != null && node.parent == p && p != t.n && p == CPtr(MinCtx(c, t.r)))
        && (t.r.l.Fork? ==> Spread(Memory(), t.n, node, t.l.n, t.r.n, CPtr(c), p, node.right))
    {
      assert Linked(Memory(), t.r, t.n) && Wf(t.r);
      if t.r.l.Fork? {
        CutTree(Memory(), c, t.r, t.n);
        MinParent(c, Step(c, R, node, t.red, t.l), t.r);
        DeepSpread(Memory(), c, t, node, CPtr(MinCtx(c, t.r)), Ptr(MinTree(t.r).r));
      }
    }

    /** The branch for a successor further down, after `HookIn` has turned `m` into the present memory. */
    method SwapDeep(old': Node, node: Node, parent: Node, child: Node?, ghost m: Mem, ghost root: Node?, ghost c: Ctx,
        ghost t: Tree)
      requires Zip(m, root, c, t) && t.Fork? && t.l.Fork? && t.r.Fork? && t.r.l.Fork? && old' == t.n
        && node == MinTree(t.r).n
      requires parent == CPtr(MinCtx(c, t.r)) && child == Ptr(MinTree(t.r).r)
      requires Spread(m, t.n, node, t.l.n, t.r.n, CPtr(c), parent, child)
      requires Memory() == Hooked(m, CPtr(c), old', node) && rb_node == if c.Top? then node else root
      modifies nodes`left, nodes`right, nodes`parent, nodes`red
      ensures At(c, Fork(t.l, node, t.red, DropMin(t.r)))
    {
      assert Memory().Keys == nodes && Memory()[old'] == m[old'];
      DeepCells(old', node, parent, child);
      DeepZip(m, Memory(), root, rb_node, c, t, node, parent, child);
    }

    /** Its writes. */
    method DeepCells(old': Node, node: Node, parent: Node, child: Node?)
      requires {old', node, parent} + Opt(child) + Opt(old'.left) + Opt(old'.right) <= nodes
      requires old'.left != null && old'.right != null && old'.left !in {old', node, parent, child, old'.right}
      requires old' !in {node, parent, child, old'.right} && old'.right !in {node, child} && child != parent
        && child != node
      modifies nodes`left, nodes`right, nodes`parent, nodes`red
      ensures Memory() == TakenOver(Adopted(Cut(old(Memory()), parent, child), node, old(old'.right)), old', node,
        old(old'.left))
    {
      ghost var cell := Memory()[old'];
      CutOut(parent, child);
      assert Memory()[old'] == cell;
      AdoptRight(old', node);
      assert Memory()[old'] == cell;
      TakeOver(old', node);
    }

    /** The tree that is left when the node of `t` goes: the hole `(hc, ht)` is where a black node may be missing. */
    ghost predicate Removed(c: Ctx, t: Tree, hc: Ctx, ht: Tree, red: bool) {
      && t.Fork?
      && Inorder(Plug(hc, ht)) == Before(c) + (Inorder(t.l) + Inorder(t.r)) + After(c)
      && Set(Plug(hc, ht)) == Set(Plug(c, t)) - {t.n}
      && (if red then RedBlack(Plug(hc, ht)) else EraseReady(hc, ht))
    }

    method EraseOne(node: Node, ghost c: Ctx, ghost t: Tree)
      returns (child: Node?, parent: Node?, red: bool, ghost ht: Tree)
      requires At(c, t) && RedBlack(Plug(c, t)) && t.Fork? && t.n == node && (t.l.Leaf? || t.r.Leaf?)
      modifies `rb_node, nodes`left, nodes`right, nodes`parent
      ensures At(c, ht) && child == Ptr(ht) && parent == CPtr(c) && Removed(c, t, c, ht, red)
    {
      Around(c, t);
      if node.left == null {
        child := node.right;
        ht := t.r;
      } else {
        child := node.left;
        ht := t.l;
      }
      parent := node.parent;
      red := node.red;
      EraseStart(c, t, ht);
      RemovedOne(c, t, ht);
      Splice(node, child, c, t, ht);
    }

    lemma {:induction false} RemovedOne(c: Ctx, t: Tree, ht: Tree)
      requires At(c, t) && t.Fork? && ((ht == t.l && t.r.Leaf?) || (ht == t.r && t.l.Leaf?))
      ensures Inorder(Plug(c, ht)) == Before(c) + (Inorder(t.l) + Inorder(t.r)) + After(c)
      ensures Set(Plug(c, ht)) == Set(Plug(c, t)) - {t.n}
    {
      PlugInorder(c, ht);
      PlugSet(c, ht);
      PlugSet(c, t);
      assert Inorder(t.l) + Inorder(t.r) == Inorder(ht);
    }

    method EraseTwo(old': Node, ghost c: Ctx, ghost t: Tree)
      returns (child: Node?, parent: Node?, red: bool, ghost hc: Ctx, ghost ht: Tree)
      requires At(c, t) && RedBlack(Plug(c, t)) && t.Fork? && t.n == old' && t.l.Fork? && t.r.Fork?
      modifies `rb_node, nodes`left, nodes`right, nodes`parent, nodes`red
      ensures At(hc, ht) && child == Ptr(ht) && parent == CPtr(hc) && Removed(c, t, hc, ht, red)
    {
      var node := Successor(old', c, t);
      child, parent, red := SwapIn(old', node, c, t);
      ghost var c1 := Step(c, R, node, t.red, t.l);
      hc, ht := MinCtx(c1, t.r), MinTree(t.r).r;
      MinPlug(c1, t.r);
      PlugZip(Memory(), rb_node, hc, ht);
      PlugZip(Memory(), rb_node, c, Fork(t.l, node, t.red, DropMin(t.r)));
      EraseStartTwo(c, t, node);
      RemovedTwo(c, t, node);
    }

    lemma {:induction false} RemovedTwo(c: Ctx, t: Tree, node: Node)
      requires Wf(t) && CSet(c) !! Set(t) && t.Fork? && t.l.Fork? && t.r.Fork? && node == MinTree(t.r).n
      ensures var t' := Plug(c, Fork(t.l, node, t.red, DropMin(t.r)));
        && Inorder(t') == Before(c) + (Inorder(t.l) + Inorder(t.r)) + After(c)
        && Set(t') == Set(Plug(c, t)) - {t.n}
    {
      var t' := Fork(t.l, node, t.red, DropMin(t.r));
      DropMinOrder(t.r);
      PlugInorder(c, t');
      assert Inorder(t') == Inorder(t.l) + Inorder(t.r);
      PlugSet(c, t');
      PlugSet(c, t);
    }

    /** `rb_erase`: the node leaves the order, and nothing else changes in it. */
    method Erase(node: Node) returns (ghost k: nat)
      requires Valid() && node in nodes
      modifies this, nodes`left, nodes`right, nodes`parent, nodes`red
      ensures Valid() && nodes == old(nodes) - {node}
      ensures k < |old(Order())| && old(Order())[k] == node && Order() == old(Order())[..k] + old(Order())[k + 1..]
      ensures turns <= old(turns) + 3
    {
      ghost var c, t := Focus(node);
      k := RemovedAt(c, t);
      var child, parent, red;
      ghost var hc, ht;
      child, parent, red, hc, ht := Unlink(node, c, t);
      if !red {
        EraseColor(child, parent, hc, ht);
      } else {
        tree := Plug(hc, ht);
        PlugZip(Memory(), rb_node, hc, ht);
      }
    }

    method Unlink(node: Node, ghost c: Ctx, ghost t: Tree)
      returns (child: Node?, parent: Node?, red: bool, ghost hc: Ctx, ghost ht: Tree)
      requires At(c, t) && RedBlack(Plug(c, t)) && t.Fork? && t.n == node && nodes == Set(Plug(c, t))
      modifies this`rb_node, this`nodes, nodes`left, nodes`right, nodes`parent, nodes`red
      ensures At(hc, ht) && child == Ptr(ht) && parent == CPtr(hc) && Removed(c, t, hc, ht, red)
      ensures nodes == old(nodes) - {node} && nodes == Set(Plug(hc, ht))
    {
      Around(c, t);
      if node.left == null || node.right == null {
        hc := c;
        child, parent, red, ht := EraseOne(node, c, t);
      } else {
        child, parent, red, hc, ht := EraseTwo(node, c, t);
      }
      Forget(node, hc, ht);
    }

    lemma {:induction false} Regrouped(a: seq<Node>, l: seq<Node>, n: Node, r: seq<Node>, b: seq<Node>)
      ensures var s, k := a + (l + [n] + r) + b, |a + l|;
        k < |s| && s[k] == n && a + (l + r) + b == s[..k] + s[k + 1..]
    {
      var s, k := a + (l + [n] + r) + b, |a + l|;
      assert s == (a + l) + [n] + (r + b);
      assert s[..k] == a + l && s[k + 1..] == r + b;
    }

    lemma {:induction false} RemovedAt(c: Ctx, t: Tree) returns (k: nat)
      requires t.Fork?
      ensures var s, r := Inorder(Plug(c, t)), Before(c) + (Inorder(t.l) + Inorder(t.r)) + After(c);
        k < |s| && s[k] == t.n && r == s[..k] + s[k + 1..]
    {
      PlugInorder(c, t);
      k := |Before(c) + Inorder(t.l)|;
      Regrouped(Before(c), Inorder(t.l), t.n, Inorder(t.r), After(c));
    }

    /** `node` is not in the tree any more. */
    ghost method Forget(node: Node, c: Ctx, t: Tree)
      requires At(c, t) && node !in Set(Plug(c, t))
      modifies this`nodes
      ensures At(c, t) && nodes == old(nodes) - {node}
    {
      ghost var m := Memory();
      nodes := nodes - {node};
      PlugSet(c, t);
      KeepZip(m, Memory(), rb_node, c, t);
    }

    // ----- linking and replacing

    /** `rb_link_node` */
    method LinkNode(node: Node, parent: Node?, link: Link, ghost c: Ctx)
      requires At(c, Leaf) && node !in nodes && parent == CPtr(c) && link == LinkOf(c)
      modifies `rb_node, `nodes, nodes`left, nodes`right, node
      ensures nodes == old(nodes) + {node} && At(c, Fork(Leaf, node, true, Leaf))
      ensures tree == old(tree)
    {
      ghost var m, root := Memory(), rb_node;
      CLinkedKeys(m, c, null);
      assert c.Step? ==> c.p in CSet(c);
      node.parent, node.red := parent, true;
      node.left, node.right := null, null;
      match link {
        case AtRoot => rb_node := node;
        case LeftOf(n) => n.left := node;
        case RightOf(n) => n.right := node;
      }
      nodes := nodes + {node};
      LinkZip(m, Memory(), root, rb_node, c, node);
    }

    /** What the link of the place holds. */
    function Deref(link: Link): Node?
      reads this`rb_node, if link.AtRoot? then {} else {link.n}
    {
      match link
      case AtRoot => rb_node
      case LeftOf(n) => n.left
      case RightOf(n) => n.right
    }

    method ReplaceCells(victim: Node, new': Node)
      requires {victim, new'} + Opt(victim.left) + Opt(victim.right) + Opt(victim.parent) <= nodes && victim != new'
      requires victim.parent != victim && victim.left != victim && victim.right != victim
      requires new' !in {victim.left, victim.right, victim.parent}
      requires victim.left != null ==> victim.left != victim.right && victim.left != victim.parent
      requires victim.right != null ==> victim.right != victim.parent
      requires victim.parent != null ==> (victim.parent.left == victim) != (victim.parent.right == victim)
      modifies `rb_node, nodes`left, nodes`right, nodes`parent, nodes`red
      ensures Swapped(old(Memory()), Memory(), victim, new', old(victim.right))
      ensures rb_node == if old(victim.parent) == null then new' else old(rb_node)
    {
      ghost var m := Memory();
      HookIn(victim, new');
      assert Memory()[victim] == m[victim];
      FosterKids(victim, new');
      CopyNode(victim, new');
      SwappedNew(m, victim, new', m[victim].left, m[victim].right, m[victim].parent);
    }

    /** The children get the new parent. */
    method FosterKids(victim: Node, new': Node)
      requires {victim, new'} + Opt(victim.left) + Opt(victim.right) <= nodes
      requires victim.left != victim && (victim.left != null ==> victim.left != victim.right)
      modifies nodes`parent
      ensures Memory() == Fostered(old(Memory()), victim.left, victim.right, new')
    {
      if victim.left != null {
        victim.left.parent := new';
      }
      if victim.right != null {
        victim.right.parent := new';
      }
    }

    /** `*new = *victim` */
    method CopyNode(victim: Node, new': Node)
      requires {victim, new'} <= nodes
      modifies nodes`left, nodes`right, nodes`parent, nodes`red
      ensures Memory() == old(Memory())[new' := old(Memory())[victim]]
    {
      new'.left, new'.right, new'.parent, new'.red := victim.left, victim.right, victim.parent, victim.red;
    }

    /** `rb_replace_node`: same shape, same colours, same order, with `new'` where `victim` was. */
    method ReplaceNode(victim: Node, new': Node)
      requires Valid() && victim in nodes && new' !in nodes
      modifies this, nodes, new'
      ensures Valid() && nodes == old(nodes) - {victim} + {new'}
      ensures tree == Renamed(old(tree), victim, new')
    {
      ghost var c, t := Focus(victim);
      Enter(new', c, t);
      ReplaceAt(victim, new', c, t);
      ghost var t' := Fork(t.l, new', t.red, t.r);
      ReplacedTree(c, t, new');
      Forget(victim, c, t');
      Regard(c, t');
    }

    method ReplaceAt(victim: Node, new': Node, ghost c: Ctx, ghost t: Tree)
      requires At(c, t) && t.Fork? && t.n == victim && new' in nodes && new' !in CSet(c) && new' !in Set(t)
      modifies `rb_node, nodes`left, nodes`right, nodes`parent, nodes`red
      ensures At(c, Fork(t.l, new', t.red, t.r))
    {
      ghost var m, root := Memory(), rb_node;
      ReplaceSites(c, t, new');
      ReplaceCells(victim, new');
      SwapZip(m, Memory(), root, rb_node, c, t.l, victim, t.red, t.r, new', victim);
    }

    ghost method Enter(n: Node, c: Ctx, t: Tree)
      requires At(c, t) && n !in nodes
      modifies this`nodes
      ensures At(c, t) && nodes == old(nodes) + {n} && n !in CSet(c) && n !in Set(t)
    {
      ghost var m := Memory();
      LinkedKeys(m, t, CPtr(c));
      CLinkedKeys(m, c, Ptr(t));
      nodes := nodes + {n};
      KeepZip(m, Memory(), rb_node, c, t);
    }

    lemma {:induction false} ReplaceSites(c: Ctx, t: Tree, new': Node)
      requires At(c, t) && t.Fork? && new' in nodes && new' !in CSet(c) && new' !in Set(t)
      ensures var v, l, r, p := t.n, Ptr(t.l), Ptr(t.r), CPtr(c);
        && {v} + Opt(l) + Opt(r) + Opt(p) <= nodes && v.left == l && v.right == r && v.parent == p
        && v !in {l, r, p, new'} && new' !in {l, r, p} && (l != null ==> l != r && l != p) && (r != null ==> r != p)
        && (p != null ==> (p.left == v) != (p.right == v))
      ensures Apart(c, t.l, t.n, Leaf, new', t.r)
    {
      assert Linked(Memory(), t.l, t.n) && Linked(Memory(), t.r, t.n);
      assert (t.l.Fork? ==> t.l.n in Set(t.l)) && (t.r.Fork? ==> t.r.n in Set(t.r));
      if c.Step? {
        assert c.p in CSet(c);
        HoleSides(c, t);
      }
    }

    lemma {:induction false} ReplacedTree(c: Ctx, t: Tree, new': Node)
      requires Wf(t) && CSet(c) !! Set(t) && t.Fork? && new' !in CSet(c) && new' !in Set(t)
      ensures var t' := Plug(c, Fork(t.l, new', t.red, t.r));
        && t' == Renamed(Plug(c, t), t.n, new') && Set(t') == Set(Plug(c, t)) - {t.n} + {new'}
        && (RedBlack(Plug(c, t)) ==> RedBlack(t'))
    {
      RenamedNot(t.l, t.n, new');
      RenamedNot(t.r, t.n, new');
      RenamedPlug(c, t, t.n, new', Fork(t.l, new', t.red, t.r));
      RenamedRedBlack(Plug(c, t), t.n, new');
      PlugSet(c, t);
      PlugSet(c, Fork(t.l, new', t.red, t.r));
    }
  }
}
