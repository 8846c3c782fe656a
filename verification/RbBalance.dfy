/** Colours and black heights: what a red-black tree is, and what each local repair of the
    insertion and erasure loops does to it. */
module RbBalance {
  import opened Powers
  import opened RbModel

  ghost predicate IsRed(t: Tree) {
    t.Fork? && t.red
  }

  ghost function BlackHeight(t: Tree): nat {
    if t.Leaf? then 0 else BlackHeight(t.l) + (if t.red then 0 else 1)
  }

  /** Every way down meets the same number of black nodes. */
  ghost predicate Balanced(t: Tree) {
    t.Fork? ==> Balanced(t.l) && Balanced(t.r) && BlackHeight(t.l) == BlackHeight(t.r)
  }

  /** No red node has a red child. */
  ghost predicate NoRedRed(t: Tree) {
    t.Fork? ==> NoRedRed(t.l) && NoRedRed(t.r) && (t.red ==> !IsRed(t.l) && !IsRed(t.r))
  }

  ghost predicate RedBlack(t: Tree) {
    !IsRed(t) && NoRedRed(t) && Balanced(t)
  }

  // ----- the same for a tree with a hole that waits for black height `h`, or for a red or black root

  ghost predicate CBalanced(c: Ctx, h: nat) {
    c.Step? ==> Balanced(c.sib) && BlackHeight(c.sib) == h && CBalanced(c.up, h + (if c.red then 0 else 1))
  }

  ghost predicate CNoRedRed(c: Ctx, red: bool) {
    c.Step? ==> NoRedRed(c.sib) && (c.red ==> !red && !IsRed(c.sib)) && CNoRedRed(c.up, c.red)
  }

  ghost predicate CRootBlack(c: Ctx) {
    c.Step? ==> CRootBlack(c.up) && (c.up.Top? ==> !c.red)
  }

  lemma {:induction false} PlugRedBlack(c: Ctx, t: Tree)
    ensures Balanced(Plug(c, t)) <==> Balanced(t) && CBalanced(c, BlackHeight(t))
    ensures NoRedRed(Plug(c, t)) <==> NoRedRed(t) && CNoRedRed(c, IsRed(t))
    ensures IsRed(Plug(c, t)) <==> (if c.Top? then IsRed(t) else !CRootBlack(c))
    decreases c
  {
    if c.Top? {
    } else {
      var t' := Mk(c.side, t, c.p, c.red, c.sib);
      PlugRedBlack(c.up, t');
      assert Balanced(t') <==> Balanced(t) && Balanced(c.sib) && BlackHeight(t) == BlackHeight(c.sib);
      assert NoRedRed(t') <==> NoRedRed(t) && NoRedRed(c.sib) && (c.red ==> !IsRed(t) && !IsRed(c.sib));
    }
  }

  lemma {:induction false} Joined(d: Side, a: Tree, n: Node, red: bool, b: Tree)
    requires Balanced(a) && NoRedRed(a) && Balanced(b) && NoRedRed(b) && BlackHeight(a) == BlackHeight(b)
    requires red ==> !IsRed(a) && !IsRed(b)
    ensures var t := Mk(d, a, n, red, b);
      Balanced(t) && NoRedRed(t) && BlackHeight(t) == BlackHeight(a) + (if red then 0 else 1)
  {}

  lemma {:induction false} Painted(t: Tree, red: bool)
    requires t.Fork? && Balanced(t) && NoRedRed(t)
    requires red ==> !IsRed(t.l) && !IsRed(t.r)
    ensures var t' := t.(red := red);
      Balanced(t') && NoRedRed(t') && BlackHeight(t') == BlackHeight(t.l) + (if red then 0 else 1)
  {}

  // ----- insertion: `t` is red, and the only faults may be its red parent, or its being the root

  ghost predicate InsertReady(c: Ctx, t: Tree) {
    && IsRed(t) && NoRedRed(t) && Balanced(t)
    && CBalanced(c, BlackHeight(t)) && CNoRedRed(c, false) && CRootBlack(c)
  }

  /** The parent of a faulty node has a parent, which is black. */
  lemma {:induction false} InsertGrandparent(c: Ctx, t: Tree)
    requires InsertReady(c, t) && c.Step? && c.red
    ensures c.up.Step? && !c.up.red && !IsRed(c.sib)
    ensures Balanced(c.sib) && NoRedRed(c.sib) && BlackHeight(c.sib) == BlackHeight(t)
    ensures Balanced(c.up.sib) && NoRedRed(c.up.sib) && BlackHeight(c.up.sib) == BlackHeight(t)
    ensures CBalanced(c.up.up, BlackHeight(t) + 1) && CNoRedRed(c.up.up, false) && CRootBlack(c.up.up)
  {
    assert CNoRedRed(c.up, true) && CBalanced(c.up, BlackHeight(t)) && CRootBlack(c.up);
  }

  /** Red uncle: two nodes become black, the grandparent red, and the fault moves up two levels. */
  lemma {:induction false} InsertRecolour(c: Ctx, t: Tree)
    requires InsertReady(c, t) && c.Step? && c.red && c.up.Step? && IsRed(c.up.sib)
    ensures InsertReady(c.up.up, Mk(c.up.side, Mk(c.side, t, c.p, false, c.sib), c.up.p, true, c.up.sib.(red := false)))
  {
    InsertGrandparent(c, t);
    Painted(c.up.sib, false);
    Joined(c.side, t, c.p, false, c.sib);
    Joined(c.up.side, Mk(c.side, t, c.p, false, c.sib), c.up.p, true, c.up.sib.(red := false));
  }

  /** A faulty node on the inner side: a rotation at its parent puts the fault on the outer side. */
  lemma {:induction false} InsertInner(c: Ctx, t: Tree)
    requires InsertReady(c, t) && c.Step? && c.red && c.up.Step? && c.side != c.up.side
    ensures var d := c.up.side;
      InsertReady(Step(c.up, d, t.n, true, Far(t, d)), Mk(d, c.sib, c.p, true, Near(t, d)))
  {
    InsertGrandparent(c, t);
    var d := c.up.side;
    Joined(d, c.sib, c.p, true, Near(t, d));
    var c' := Step(c.up, d, t.n, true, Far(t, d));
    assert CNoRedRed(c.up, true) && CBalanced(c.up, BlackHeight(t)) && CRootBlack(c.up);
  }

  /** Black uncle, fault on the outer side: the rotation at the grandparent removes the fault. */
  lemma {:induction false} InsertOuter(c: Ctx, t: Tree)
    requires InsertReady(c, t) && c.Step? && c.red && c.up.Step? && c.side == c.up.side && !IsRed(c.up.sib)
    ensures InsertReady(Step(c.up.up, c.side, c.p, false, Mk(c.side, c.sib, c.up.p, true, c.up.sib)), t)
  {
    InsertGrandparent(c, t);
    Joined(c.side, c.sib, c.up.p, true, c.up.sib);
  }

  lemma {:induction false} InsertDone(c: Ctx, t: Tree)
    requires InsertReady(c, t) && (c.Step? ==> !c.red)
    ensures var f := Plug(c, t); f.Fork? && RedBlack(f.(red := false)) && (c.Step? ==> !f.red)
  {
    assert CNoRedRed(c, true);
    PlugRedBlack(c, t);
    PlugInorder(c, t);
  }

  // ----- erasure: the hole is one black node short

  ghost predicate NoRedRedBelow(t: Tree) {
    t.Fork? ==> NoRedRed(t.l) && NoRedRed(t.r)
  }

  ghost predicate EraseReady(c: Ctx, t: Tree) {
    && NoRedRedBelow(t) && Balanced(t)
    && CBalanced(c, BlackHeight(t) + 1) && CNoRedRed(c, false) && CRootBlack(c)
  }

  lemma {:induction false} EraseSibling(c: Ctx, t: Tree)
    requires EraseReady(c, t) && c.Step?
    ensures c.sib.Fork?
    ensures c.sib.red ==> !c.red && c.sib.l.Fork? && c.sib.r.Fork? && !c.sib.l.red && !c.sib.r.red
  {}

  /** Red sibling: a rotation gives the hole a black sibling and a red parent. */
  lemma {:induction false} EraseRedSibling(c: Ctx, t: Tree)
    requires EraseReady(c, t) && c.Step? && IsRed(c.sib)
    ensures var d, s := c.side, c.sib;
      EraseReady(Step(Step(c.up, d, s.n, false, Far(s, d)), d, c.p, true, Near(s, d)), t)
  {}

  /** Black sibling with black children: painting it red moves the shortage to the parent. */
  lemma {:induction false} EraseRecolour(c: Ctx, t: Tree)
    requires EraseReady(c, t) && !IsRed(t) && c.Step? && c.sib.Fork? && !c.sib.red && !IsRed(c.sib.l) && !IsRed(c.sib.r)
    ensures EraseReady(c.up, Mk(c.side, t, c.p, c.red, c.sib.(red := true)))
  {
    Painted(c.sib, true);
    assert NoRedRed(t) && CNoRedRed(c.up, c.red);
  }

  /** Black sibling whose only red child is the near one: a rotation at the sibling makes it the far one. */
  lemma {:induction false} EraseInner(c: Ctx, t: Tree)
    requires EraseReady(c, t) && c.Step? && c.sib.Fork? && !c.sib.red
    requires IsRed(Near(c.sib, c.side)) && !IsRed(Far(c.sib, c.side))
    ensures var d, s := c.side, c.sib; var x := Near(s, d);
      EraseReady(c.(sib := Mk(d, Near(x, d), x.n, false, Mk(d, Far(x, d), s.n, true, Far(s, d)))), t)
  {
    var d, s := c.side, c.sib;
    var x := Near(s, d);
    assert Balanced(x) && NoRedRed(x) && Balanced(s) && NoRedRed(s);
    Joined(d, Far(x, d), s.n, true, Far(s, d));
    Joined(d, Near(x, d), x.n, false, Mk(d, Far(x, d), s.n, true, Far(s, d)));
  }

  /** Black sibling with a red far child: the rotation at the parent ends the shortage. */
  lemma {:induction false} EraseOuter(c: Ctx, t: Tree)
    requires EraseReady(c, t) && !IsRed(t) && c.Step? && c.sib.Fork? && !c.sib.red && IsRed(Far(c.sib, c.side))
    ensures var d, s := c.side, c.sib;
      RedBlack(Plug(c.up, Mk(d, Mk(d, t, c.p, false, Near(s, d)), s.n, c.red, Far(s, d).(red := false))))
  {
    var d, s := c.side, c.sib;
    assert NoRedRed(t) && Balanced(s) && NoRedRed(s);
    Painted(Far(s, d), false);
    Joined(d, t, c.p, false, Near(s, d));
    Joined(d, Mk(d, t, c.p, false, Near(s, d)), s.n, c.red, Far(s, d).(red := false));
    PlugRedBlack(c.up, Mk(d, Mk(d, t, c.p, false, Near(s, d)), s.n, c.red, Far(s, d).(red := false)));
  }

  /** The subtree at the parent once the three nodes have been painted, and its order. */
  ghost function OuterPainted(c: Ctx, t: Tree): Tree
    requires c.Step? && c.sib.Fork? && Far(c.sib, c.side).Fork?
  {
    var d, s := c.side, c.sib;
    Mk(d, t, c.p, false, Mk(d, Near(s, d), s.n, c.red, Far(s, d).(red := false)))
  }

  lemma {:induction false} PaintedOrder(c: Ctx, t: Tree)
    requires c.Step? && c.sib.Fork? && Far(c.sib, c.side).Fork?
    ensures var p := Mk(c.side, t, c.p, c.red, c.sib);
      Inorder(OuterPainted(c, t)) == Inorder(p) && Set(OuterPainted(c, t)) == Set(p)
  {
    var d, s := c.side, c.sib;
    var far := Far(s, d);
    assert Inorder(far.(red := false)) == Inorder(far) && Set(far.(red := false)) == Set(far);
    assert s == Mk(d, Near(s, d), s.n, s.red, far);
  }

  lemma {:induction false} TurnedOrder(d: Side, t: Tree)
    requires t.Fork? && Far(t, d).Fork?
    ensures Inorder(Turn(d, t)) == Inorder(t) && Set(Turn(d, t)) == Set(t)
  {
    var s := Far(t, d);
    TurnOrder(d, Near(t, d), t.n, t.red, Near(s, d), s.n, s.red, Far(s, d));
    assert s == Mk(d, Near(s, d), s.n, s.red, Far(s, d)) && t == Mk(d, Near(t, d), t.n, t.red, s);
  }

  /** The painting and the rotation at the parent leave a red-black tree with the order of before. */
  lemma {:induction false} OuterTurned(c: Ctx, t: Tree)
    requires EraseReady(c, t) && !IsRed(t) && c.Step? && c.sib.Fork? && !c.sib.red && IsRed(Far(c.sib, c.side))
    ensures var t' := Plug(c.up, Turn(c.side, OuterPainted(c, t)));
      RedBlack(t') && SameOrder(c, t, Top, t')
  {
    EraseOuter(c, t);
    PaintedOrder(c, t);
    TurnedOrder(c.side, OuterPainted(c, t));
    PlugSame(c.up, Mk(c.side, t, c.p, c.red, c.sib), Turn(c.side, OuterPainted(c, t)));
  }

  lemma {:induction false} CNoRedRedBlack(c: Ctx)
    requires CNoRedRed(c, true)
    ensures CNoRedRed(c, false)
  {}

  /** A node with at most one child gives its place to that child. */
  lemma {:induction false} EraseStart(c: Ctx, t: Tree, ch: Tree)
    requires RedBlack(Plug(c, t)) && t.Fork?
    requires (ch == t.l && t.r.Leaf?) || (ch == t.r && t.l.Leaf?)
    ensures if t.red then RedBlack(Plug(c, ch)) else EraseReady(c, ch)
  {
    PlugRedBlack(c, t);
    assert BlackHeight(ch) == BlackHeight(t.l) && Balanced(ch) && NoRedRed(ch);
    if t.red {
      assert CNoRedRed(c, true) && !IsRed(ch);
      CNoRedRedBlack(c);
      PlugRedBlack(c, ch);
    }
  }

  /** A node with two children gives its place to its successor. */
  lemma {:induction false} EraseStartTwo(c: Ctx, t: Tree, node: Node)
    requires RedBlack(Plug(c, t)) && t.Fork? && t.r.Fork?
    ensures var c', y := MinCtx(Step(c, R, node, t.red, t.l), t.r), MinTree(t.r);
      if y.red then RedBlack(Plug(c', y.r)) else EraseReady(c', y.r)
  {
    var t' := Fork(t.l, node, t.red, t.r);
    PlugRedBlack(c, t);
    PlugRedBlack(c, t');
    MinPlug(Step(c, R, node, t.red, t.l), t.r);
    EraseStart(MinCtx(Step(c, R, node, t.red, t.l), t.r), MinTree(t.r), MinTree(t.r).r);
  }

  /** The loop's exits: the node at the hole is red, or is the root; painting it black ends the shortage. */
  lemma {:induction false} EraseDone(c: Ctx, t: Tree)
    requires EraseReady(c, t) && (IsRed(t) || c.Top?)
    ensures RedBlack(Plug(c, if t.Fork? then t.(red := false) else t))
  {
    PlugRedBlack(c, if t.Fork? then t.(red := false) else t);
  }

  lemma {:induction false} RenamedRedBlack(t: Tree, v: Node, w: Node)
    ensures BlackHeight(Renamed(t, v, w)) == BlackHeight(t) && IsRed(Renamed(t, v, w)) == IsRed(t)
    ensures Balanced(Renamed(t, v, w)) == Balanced(t) && NoRedRed(Renamed(t, v, w)) == NoRedRed(t)
  {
    if t.Leaf? {
    } else {
      RenamedRedBlack(t.l, v, w);
      RenamedRedBlack(t.r, v, w);
    }
  }

  // ----- height

  /** The number of nodes on the longest way down. */
  ghost function Height(t: Tree): nat {
    if t.Leaf? then 0 else 1 + if Height(t.l) > Height(t.r) then Height(t.l) else Height(t.r)
  }

  ghost function Rank(t: Tree): nat {
    2 * BlackHeight(t) + (if IsRed(t) then 1 else 0)
  }

  /** At least every other node on a way down is black. */
  lemma {:induction false} HeightRank(t: Tree)
    requires Balanced(t) && NoRedRed(t)
    ensures Height(t) <= Rank(t)
  {
    if t.Leaf? {
    } else {
      HeightRank(t.l);
      HeightRank(t.r);
    }
  }

  lemma {:induction false} BlackHeightSize(t: Tree)
    requires Balanced(t)
    ensures Pow2(BlackHeight(t)) <= |Inorder(t)| + 1
  {
    if t.Leaf? {
    } else {
      BlackHeightSize(t.l);
      BlackHeightSize(t.r);
    }
  }

  lemma {:induction false} Pow2Grows(a: nat, b: nat)
    requires a <= b
    ensures Pow2(a) <= Pow2(b)
  {
    if a < b {
      Pow2Grows(a, b - 1);
    }
  }

  lemma {:induction false} Square(a: nat, b: nat)
    requires a <= b
    ensures a * a <= b * b
  {}

  /** No way down in a red-black tree of n nodes is longer than 2 log2(n + 1). */
  lemma {:induction false} HeightBound(t: Tree)
    requires RedBlack(t)
    ensures Pow2(Height(t)) <= (|Inorder(t)| + 1) * (|Inorder(t)| + 1)
  {
    var h, n := BlackHeight(t), |Inorder(t)| + 1;
    HeightRank(t);
    BlackHeightSize(t);
    Pow2Grows(Height(t), h + h);
    Pow2Sum(h, h);
    Square(Pow2(h), n);
  }
}
