/** The memory and the tree shapes that the red-black tree code works on.

    A `Node` is one `struct rb_node` (with the `num` of the `struct mytype` around it); the word
    `rb_parent_color` is two fields.  A `Tree` says which nodes hang where; a `Ctx` is a tree with
    one hole in it, read from the hole up to the root, so that a loop that climbs through parent
    pointers is a walk over a `Ctx`.  `Zip` ties a memory to a `Ctx` and the `Tree` in its hole. */
module RbModel {
  class Node {
    var left: Node?
    var right: Node?
    var parent: Node?
    var red: bool
    const num: int

    constructor (num: int)
      ensures this.num == num
    {
      this.num := num;
    }
  }

  datatype Cell = Cell(left: Node?, right: Node?, parent: Node?, red: bool)

  type Mem = map<Node, Cell>

  datatype Side = L | R

  datatype Tree = Leaf | Fork(l: Tree, n: Node, red: bool, r: Tree)

  datatype Ctx = Top | Step(up: Ctx, side: Side, p: Node, red: bool, sib: Tree)

  // ----- sides: what is written with `d` holds for the left and for the right branch of the code

  ghost function Opp(d: Side): Side {
    if d.L? then R else L
  }

  ghost function Mk(d: Side, near: Tree, n: Node, red: bool, far: Tree): Tree {
    if d.L? then Fork(near, n, red, far) else Fork(far, n, red, near)
  }

  ghost function Near(t: Tree, d: Side): Tree
    requires t.Fork?
  {
    if d.L? then t.l else t.r
  }

  ghost function Far(t: Tree, d: Side): Tree
    requires t.Fork?
  {
    if d.L? then t.r else t.l
  }

  ghost function MkCell(d: Side, near: Node?, far: Node?, parent: Node?, red: bool): Cell {
    if d.L? then Cell(near, far, parent, red) else Cell(far, near, parent, red)
  }

  ghost function Put(c: Cell, d: Side, v: Node?): Cell {
    if d.L? then c.(left := v) else c.(right := v)
  }

  // ----- trees and contexts

  ghost function Ptr(t: Tree): Node? {
    if t.Leaf? then null else t.n
  }

  ghost function CPtr(c: Ctx): Node? {
    if c.Top? then null else c.p
  }

  /** What the root pointer is when `hole` is the pointer in the hole of `c`. */
  ghost function CTop(c: Ctx, hole: Node?): Node? {
    if c.Top? then hole else CTop(c.up, c.p)
  }

  ghost function Opt(x: Node?): set<Node> {
    if x == null then {} else {x}
  }

  ghost function Set(t: Tree): set<Node> {
    match t
    case Leaf => {}
    case Fork(l, n, _, r) => Set(l) + {n} + Set(r)
  }

  ghost function CSet(c: Ctx): set<Node> {
    match c
    case Top => {}
    case Step(up, _, p, _, s) => CSet(up) + {p} + Set(s)
  }

  /** No node stands in two places. */
  ghost predicate Wf(t: Tree) {
    match t
    case Leaf => true
    case Fork(l, n, _, r) => Wf(l) && Wf(r) && n !in Set(l) && n !in Set(r) && Set(l) !! Set(r)
  }

  ghost predicate CWf(c: Ctx) {
    match c
    case Top => true
    case Step(up, _, p, _, s) => CWf(up) && Wf(s) && p !in CSet(up) && p !in Set(s) && CSet(up) !! Set(s)
  }

  /** The cells of `t`'s nodes are linked as `t` says, parent pointers included. */
  ghost predicate Linked(m: Mem, t: Tree, parent: Node?) {
    match t
    case Leaf => true
    case Fork(l, n, red, r) =>
      n in m && m[n] == Cell(Ptr(l), Ptr(r), parent, red) && Linked(m, l, n) && Linked(m, r, n)
  }

  ghost predicate CLinked(m: Mem, c: Ctx, hole: Node?) {
    match c
    case Top => true
    case Step(up, d, p, red, s) =>
      p in m && m[p] == MkCell(d, hole, Ptr(s), CPtr(up), red) && Linked(m, s, p) && CLinked(m, up, p)
  }

  ghost predicate Zip(m: Mem, root: Node?, c: Ctx, t: Tree) {
    && Wf(t) && CWf(c) && CSet(c) !! Set(t)
    && Linked(m, t, CPtr(c)) && CLinked(m, c, Ptr(t)) && root == CTop(c, Ptr(t))
  }

  ghost function Plug(c: Ctx, t: Tree): Tree {
    if c.Top? then t else Plug(c.up, Mk(c.side, t, c.p, c.red, c.sib))
  }

  ghost function Inorder(t: Tree): seq<Node> {
    match t
    case Leaf => []
    case Fork(l, n, _, r) => Inorder(l) + [n] + Inorder(r)
  }

  /** The nodes before and after the hole. */
  ghost function Before(c: Ctx): seq<Node> {
    if c.Top? then [] else if c.side.L? then Before(c.up) else Before(c.up) + Inorder(c.sib) + [c.p]
  }

  ghost function After(c: Ctx): seq<Node> {
    if c.Top? then [] else if c.side.R? then After(c.up) else [c.p] + Inorder(c.sib) + After(c.up)
  }

  // ----- moving the focus

  lemma {:induction false} TopInside(c: Ctx, hole: Node?)
    requires c.Step?
    ensures CTop(c, hole) in CSet(c)
  {
    if c.up.Top? {
    } else {
      TopInside(c.up, c.p);
    }
  }

  lemma {:induction false} ZipUp(m: Mem, root: Node?, c: Ctx, t: Tree)
    requires c.Step?
    ensures Zip(m, root, c, t) <==> Zip(m, root, c.up, Mk(c.side, t, c.p, c.red, c.sib))
  {
    assert Set(Mk(c.side, t, c.p, c.red, c.sib)) == Set(t) + {c.p} + Set(c.sib);
    assert Linked(m, Mk(c.side, t, c.p, c.red, c.sib), CPtr(c.up)) <==>
      c.p in m && m[c.p] == MkCell(c.side, Ptr(t), Ptr(c.sib), CPtr(c.up), c.red) && Linked(m, t, c.p)
        && Linked(m, c.sib, c.p);
  }

  lemma {:induction false} PlugZip(m: Mem, root: Node?, c: Ctx, t: Tree)
    ensures Zip(m, root, c, t) <==> Zip(m, root, Top, Plug(c, t))
    decreases c
  {
    if c.Top? {
    } else {
      ZipUp(m, root, c, t);
      PlugZip(m, root, c.up, Mk(c.side, t, c.p, c.red, c.sib));
    }
  }

  lemma {:induction false} PlugSet(c: Ctx, t: Tree)
    ensures Set(Plug(c, t)) == CSet(c) + Set(t)
    decreases c
  {
    if c.Top? {
    } else {
      PlugSet(c.up, Mk(c.side, t, c.p, c.red, c.sib));
    }
  }

  lemma {:induction false} Regroup<T>(a: seq<T>, b: seq<T>, p: T, s: seq<T>, e: seq<T>)
    ensures a + (b + [p] + s) + e == a + b + ([p] + s + e)
    ensures a + (s + [p] + b) + e == (a + s + [p]) + b + e
  {}

  lemma {:induction false} PlugInorder(c: Ctx, t: Tree)
    ensures Inorder(Plug(c, t)) == Before(c) + Inorder(t) + After(c)
    decreases c
  {
    if c.Top? {
    } else {
      PlugInorder(c.up, Mk(c.side, t, c.p, c.red, c.sib));
      Regroup(Before(c.up), Inorder(t), c.p, Inorder(c.sib), After(c.up));
    }
  }

  lemma {:induction false} MiddleOf(c: Ctx, t: Tree)
    requires t.Fork?
    ensures Inorder(Plug(c, t)) == (Before(c) + Inorder(t.l)) + [t.n] + (Inorder(t.r) + After(c))
  {
    PlugInorder(c, t);
  }

  /** Two plugged trees hold the same nodes in the same order. */
  ghost predicate SameOrder(c: Ctx, t: Tree, c': Ctx, t': Tree) {
    Inorder(Plug(c, t)) == Inorder(Plug(c', t')) && Set(Plug(c, t)) == Set(Plug(c', t'))
  }

  lemma {:induction false} PlugSame(c: Ctx, t: Tree, t': Tree)
    requires Inorder(t) == Inorder(t') && Set(t) == Set(t')
    ensures SameOrder(c, t, c, t')
  {
    PlugInorder(c, t);
    PlugInorder(c, t');
    PlugSet(c, t);
    PlugSet(c, t');
  }

  ghost function Depth(c: Ctx): nat {
    if c.Top? then 0 else 1 + Depth(c.up)
  }

  lemma {:induction false} InorderSet(t: Tree)
    ensures forall i :: 0 <= i < |Inorder(t)| ==> Inorder(t)[i] in Set(t)
    ensures forall n <- Set(t) :: n in Inorder(t)
  {
    if t.Leaf? {
    } else {
      InorderSet(t.l);
      InorderSet(t.r);
    }
  }

  lemma {:induction false} InorderDistinct(t: Tree)
    requires Wf(t)
    ensures forall i, j :: 0 <= i < j < |Inorder(t)| ==> Inorder(t)[i] != Inorder(t)[j]
  {
    if t.Leaf? {
    } else {
      var l, r := Inorder(t.l), Inorder(t.r);
      InorderDistinct(t.l);
      InorderDistinct(t.r);
      InorderSet(t.l);
      InorderSet(t.r);
      forall i, j | 0 <= i < j < |l| + 1 + |r|
        ensures Inorder(t)[i] != Inorder(t)[j]
      {
        assert Inorder(t)[i] == if i < |l| then l[i] else if i == |l| then t.n else r[i - |l| - 1];
        assert Inorder(t)[j] == if j < |l| then l[j] else if j == |l| then t.n else r[j - |l| - 1];
      }
    }
  }

  /** Where a node of `t` stands. */
  ghost function Locate(c: Ctx, t: Tree, n: Node): (r: (Ctx, Tree))
    requires n in Set(t)
    ensures r.1.Fork? && r.1.n == n && Plug(r.0, r.1) == Plug(c, t)
    decreases t
  {
    if t.n == n then (c, t)
    else if n in Set(t.l) then Locate(Step(c, L, t.n, t.red, t.r), t.l, n)
    else Locate(Step(c, R, t.n, t.red, t.l), t.r, n)
  }

  // ----- what a change of memory keeps

  ghost predicate Same(m: Mem, m': Mem, s: set<Node>) {
    forall n <- s :: n in m ==> n in m' && m'[n] == m[n]
  }

  lemma {:induction false} KeepTree(m: Mem, m': Mem, t: Tree, parent: Node?)
    requires Linked(m, t, parent) && Same(m, m', Set(t))
    ensures Linked(m', t, parent)
  {
    if t.Leaf? {
    } else {
      assert t.n in Set(t);
      KeepTree(m, m', t.l, t.n);
      KeepTree(m, m', t.r, t.n);
    }
  }

  lemma {:induction false} KeepCtx(m: Mem, m': Mem, c: Ctx, hole: Node?)
    requires CLinked(m, c, hole) && Same(m, m', CSet(c))
    ensures CLinked(m', c, hole)
  {
    if c.Top? {
    } else {
      assert c.p in CSet(c);
      KeepTree(m, m', c.sib, c.p);
      KeepCtx(m, m', c.up, c.p);
    }
  }

  lemma {:induction false} LinkedKeys(m: Mem, t: Tree, parent: Node?)
    requires Linked(m, t, parent)
    ensures Set(t) <= m.Keys
  {
    if t.Leaf? {
    } else {
      LinkedKeys(m, t.l, t.n);
      LinkedKeys(m, t.r, t.n);
    }
  }

  lemma {:induction false} CLinkedKeys(m: Mem, c: Ctx, hole: Node?)
    requires CLinked(m, c, hole)
    ensures CSet(c) <= m.Keys
  {
    if c.Top? {
    } else {
      LinkedKeys(m, c.sib, c.p);
      CLinkedKeys(m, c.up, c.p);
    }
  }

  /** Another pointer is stored in the hole. */
  lemma {:induction false} Rehang(m: Mem, m': Mem, c: Ctx, hole: Node?, hole': Node?)
    requires CWf(c) && CLinked(m, c, hole) && Same(m, m', CSet(c) - Opt(CPtr(c)))
    requires c.Step? ==> c.p in m' && m'[c.p] == Put(m[c.p], c.side, hole')
    ensures CLinked(m', c, hole')
  {
    if c.Step? {
      KeepTree(m, m', c.sib, c.p);
      KeepCtx(m, m', c.up, c.p);
    }
  }

  /** The parent pointer of the root of `t` is rewritten. */
  lemma {:induction false} Reparent(m: Mem, m': Mem, t: Tree, parent: Node?, parent': Node?)
    requires Wf(t) && Linked(m, t, parent) && Same(m, m', Set(t) - Opt(Ptr(t)))
    requires t.Fork? ==> t.n in m' && m'[t.n] == m[t.n].(parent := parent')
    ensures Linked(m', t, parent')
  {
    if t.Fork? {
      KeepTree(m, m', t.l, t.n);
      KeepTree(m, m', t.r, t.n);
    }
  }

  lemma {:induction false} KeepZip(m: Mem, m': Mem, root: Node?, c: Ctx, t: Tree)
    requires Zip(m, root, c, t) && Same(m, m', CSet(c) + Set(t))
    ensures Zip(m', root, c, t)
  {
    KeepTree(m, m', t, CPtr(c));
    KeepCtx(m, m', c, Ptr(t));
  }

  /** The root of `t` is painted. */
  lemma {:induction false} Repaint(m: Mem, m': Mem, root: Node?, c: Ctx, t: Tree, red: bool)
    requires Zip(m, root, c, t) && t.Fork? && Same(m, m', CSet(c) + Set(t) - {t.n})
    requires t.n in m' && m'[t.n] == m[t.n].(red := red)
    ensures Zip(m', root, c, t.(red := red))
  {
    KeepTree(m, m', t.l, t.n);
    KeepTree(m, m', t.r, t.n);
    KeepCtx(m, m', c, t.n);
  }

  // ----- rotations

  /** `t` with its root pushed down to side `d`, the child on the other side in its place. */
  ghost function Turn(d: Side, t: Tree): Tree
    requires t.Fork? && Far(t, d).Fork?
  {
    var s := Far(t, d);
    Mk(d, Mk(d, Near(t, d), t.n, t.red, Near(s, d)), s.n, s.red, Far(s, d))
  }

  /** The cells after that: `y`, `x`'s child away from `d`, takes `x`'s place, and its child `b` moves to `x`. */
  ghost predicate Turned(d: Side, m: Mem, m': Mem, x: Node, y: Node, b: Node?, p: Node?) {
    && x in m && y in m && (b != null ==> b in m) && (p != null ==> p in m)
    && m'.Keys == m.Keys
    && m'[x] == Put(m[x], Opp(d), b).(parent := y)
    && m'[y] == Put(m[y], d, x).(parent := p)
    && (b != null ==> m'[b] == m[b].(parent := x))
    && (p != null ==> m'[p] == Put(m[p], if m[p].left == x then L else R, y))
    && (forall n <- m :: n != x && n != y && n != b && n != p ==> m'[n] == m[n])
  }

  ghost predicate Apart(c: Ctx, a: Tree, x: Node, b: Tree, y: Node, e: Tree) {
    && Wf(a) && Wf(b) && Wf(e) && CWf(c) && x != y
    && x !in CSet(c) && x !in Set(a) && x !in Set(b) && x !in Set(e)
    && y !in CSet(c) && y !in Set(a) && y !in Set(b) && y !in Set(e)
    && CSet(c) !! Set(a) && CSet(c) !! Set(b) && CSet(c) !! Set(e)
    && Set(a) !! Set(b) && Set(a) !! Set(e) && Set(b) !! Set(e)
  }

  lemma {:induction false} PartsBefore(d: Side, c: Ctx, a: Tree, x: Node, cx: bool, b: Tree, y: Node, cy: bool, e: Tree)
    requires var t := Mk(d, a, x, cx, Mk(d, b, y, cy, e)); Wf(t) && CWf(c) && CSet(c) !! Set(t)
    ensures Apart(c, a, x, b, y, e)
  {
    var s := Mk(d, b, y, cy, e);
    assert Set(s) == Set(b) + {y} + Set(e);
  }

  lemma {:induction false} PartsAfter(d: Side, c: Ctx, a: Tree, x: Node, cx: bool, b: Tree, y: Node, cy: bool, e: Tree)
    requires Apart(c, a, x, b, y, e)
    ensures var t := Mk(d, Mk(d, a, x, cx, b), y, cy, e); Wf(t) && CWf(c) && CSet(c) !! Set(t)
  {
    var s := Mk(d, a, x, cx, b);
    assert Set(s) == Set(a) + {x} + Set(b) && Wf(s);
  }

  /** A rotation leaves the three subtrees alone, but for the parent pointer of the one in the middle. */
  lemma {:induction false} TurnSame(d: Side, m: Mem, m': Mem, c: Ctx, a: Tree, x: Node, b: Tree, y: Node, e: Tree)
    requires Apart(c, a, x, b, y, e) && Turned(d, m, m', x, y, Ptr(b), CPtr(c))
    ensures Same(m, m', Set(a)) && Same(m, m', Set(e)) && Same(m, m', Set(b) - Opt(Ptr(b)))
  {
    assert b.Fork? ==> b.n in Set(b);
    assert c.Step? ==> c.p in CSet(c);
  }

  /** The cells of the two nodes themselves, and of the middle subtree's root. */
  lemma {:induction false} TurnCells(d: Side, m: Mem, m': Mem, c: Ctx, a: Tree, x: Node, cx: bool, b: Tree, y: Node,
      cy: bool, e: Tree)
    requires x != y && Linked(m, Mk(d, a, x, cx, Mk(d, b, y, cy, e)), CPtr(c))
      && Turned(d, m, m', x, y, Ptr(b), CPtr(c))
    ensures Linked(m, a, x) && Linked(m, b, y) && Linked(m, e, y)
    ensures x in m' && m'[x] == MkCell(d, Ptr(a), Ptr(b), y, cx)
    ensures y in m' && m'[y] == MkCell(d, x, Ptr(e), CPtr(c), cy)
    ensures b.Fork? ==> b.n in m' && m'[b.n] == m[b.n].(parent := x)
  {
    LinkedMk(d, m, a, x, cx, Mk(d, b, y, cy, e), CPtr(c));
    LinkedMk(d, m, b, y, cy, e, x);
  }

  lemma {:induction false} TurnTree(d: Side, m: Mem, m': Mem, c: Ctx, a: Tree, x: Node, cx: bool, b: Tree, y: Node,
      cy: bool, e: Tree)
    requires Apart(c, a, x, b, y, e)
    requires Linked(m, Mk(d, a, x, cx, Mk(d, b, y, cy, e)), CPtr(c))
    requires Turned(d, m, m', x, y, Ptr(b), CPtr(c))
    ensures Linked(m', Mk(d, Mk(d, a, x, cx, b), y, cy, e), CPtr(c))
  {
    TurnCells(d, m, m', c, a, x, cx, b, y, cy, e);
    TurnSame(d, m, m', c, a, x, b, y, e);
    KeepTree(m, m', a, x);
    KeepTree(m, m', e, y);
    Reparent(m, m', b, y, x);
    LinkedMk(d, m', a, x, cx, b, y);
    LinkedMk(d, m', Mk(d, a, x, cx, b), y, cy, e, CPtr(c));
  }

  lemma {:induction false} LinkedMk(d: Side, m: Mem, a: Tree, n: Node, red: bool, b: Tree, parent: Node?)
    ensures Linked(m, Mk(d, a, n, red, b), parent) <==>
      n in m && m[n] == MkCell(d, Ptr(a), Ptr(b), parent, red) && Linked(m, a, n) && Linked(m, b, n)
  {}

  lemma {:induction false} TurnCtx(d: Side, m: Mem, m': Mem, c: Ctx, a: Tree, x: Node, b: Tree, y: Node, e: Tree)
    requires Apart(c, a, x, b, y, e)
    requires CLinked(m, c, x)
    requires Turned(d, m, m', x, y, Ptr(b), CPtr(c))
    ensures CLinked(m', c, y)
  {
    assert b.Fork? ==> b.n in Set(b);
    assert c.Step? ==> c.p in CSet(c) && c.p !in Set(c.sib) && (c.sib.Fork? ==> c.sib.n in Set(c.sib));
    Rehang(m, m', c, x, y);
  }

  lemma {:induction false} TurnZip(d: Side, m: Mem, m': Mem, root: Node?, root': Node?, c: Ctx, t: Tree)
    requires Zip(m, root, c, t) && t.Fork? && Far(t, d).Fork?
    requires var s := Far(t, d); Turned(d, m, m', t.n, s.n, Ptr(Near(s, d)), CPtr(c))
    requires root' == if c.Top? then Far(t, d).n else root
    ensures Zip(m', root', c, Turn(d, t))
    ensures Inorder(Turn(d, t)) == Inorder(t) && Set(Turn(d, t)) == Set(t)
  {
    var s := Far(t, d);
    var a, b, e := Near(t, d), Near(s, d), Far(s, d);
    PartsBefore(d, c, a, t.n, t.red, b, s.n, s.red, e);
    TurnTree(d, m, m', c, a, t.n, t.red, b, s.n, s.red, e);
    TurnCtx(d, m, m', c, a, t.n, b, s.n, e);
    PartsAfter(d, c, a, t.n, t.red, b, s.n, s.red, e);
    TurnOrder(d, a, t.n, t.red, b, s.n, s.red, e);
  }

  lemma {:induction false} TurnOrder(d: Side, a: Tree, x: Node, cx: bool, b: Tree, y: Node, cy: bool, e: Tree)
    ensures var t, t' := Mk(d, a, x, cx, Mk(d, b, y, cy, e)), Mk(d, Mk(d, a, x, cx, b), y, cy, e);
      Inorder(t) == Inorder(t') && Set(t) == Set(t')
  {
    if d.L? {
      Associate(Inorder(a), x, Inorder(b), y, Inorder(e));
    } else {
      Associate(Inorder(e), y, Inorder(b), x, Inorder(a));
    }
    assert Set(a) + {x} + (Set(b) + {y} + Set(e)) == Set(a) + {x} + Set(b) + {y} + Set(e);
  }

  lemma {:induction false} Associate<T>(p: seq<T>, x: T, q: seq<T>, y: T, r: seq<T>)
    ensures p + [x] + (q + [y] + r) == (p + [x] + q) + [y] + r
  {}

  // ----- taking a node out

  /** The cells after `child` has been hung in the place of `x`. */
  ghost predicate Unhooked(m: Mem, m': Mem, x: Node, child: Node?, p: Node?) {
    && x in m && (child != null ==> child in m) && (p != null ==> p in m)
    && m'.Keys == m.Keys
    && (child != null ==> m'[child] == m[child].(parent := p))
    && (p != null ==> m'[p] == Put(m[p], if m[p].left == x then L else R, child))
    && (forall n <- m :: n != child && n != p ==> m'[n] == m[n])
  }

  lemma {:induction false} UnhookZip(m: Mem, m': Mem, root: Node?, root': Node?, c: Ctx, t: Tree, ch: Tree)
    requires Zip(m, root, c, t) && t.Fork?
    requires (ch == t.l && t.r.Leaf?) || (ch == t.r && t.l.Leaf?)
    requires Unhooked(m, m', t.n, Ptr(ch), CPtr(c))
    requires root' == if c.Top? then Ptr(ch) else root
    ensures Zip(m', root', c, ch)
  {
    assert Set(ch) <= Set(t) && t.n !in Set(ch);
    assert ch.Fork? ==> ch.n in Set(ch);
    assert c.Step? ==> c.p in CSet(c) && c.p !in Set(c.sib) && (c.sib.Fork? ==> c.sib.n in Set(c.sib));
    Reparent(m, m', ch, t.n, CPtr(c));
    Rehang(m, m', c, t.n, Ptr(ch));
  }

  /** The leftmost way down from `t`: the context of its last node, that node's subtree, and `t` without that node. */
  ghost function MinCtx(c: Ctx, t: Tree): Ctx
    requires t.Fork?
    decreases t
  {
    if t.l.Leaf? then c else MinCtx(Step(c, L, t.n, t.red, t.r), t.l)
  }

  ghost function MinTree(t: Tree): (r: Tree)
    requires t.Fork?
    ensures r.Fork? && r.l.Leaf?
  {
    if t.l.Leaf? then t else MinTree(t.l)
  }

  ghost function DropMin(t: Tree): Tree
    requires t.Fork?
  {
    if t.l.Leaf? then t.r else Fork(DropMin(t.l), t.n, t.red, t.r)
  }

  lemma {:induction false} MinPlug(c: Ctx, t: Tree)
    requires t.Fork?
    ensures Plug(MinCtx(c, t), MinTree(t)) == Plug(c, t)
    ensures Plug(MinCtx(c, t), MinTree(t).r) == Plug(c, DropMin(t))
    ensures MinCtx(c, t) == c <==> t.l.Leaf?
    ensures Depth(MinCtx(c, t)) >= Depth(c)
    decreases t
  {
    if t.l.Leaf? {
    } else {
      MinPlug(Step(c, L, t.n, t.red, t.r), t.l);
    }
  }

  lemma {:induction false} MinParent(c: Ctx, c': Ctx, t: Tree)
    requires t.Fork? && t.l.Fork?
    ensures CPtr(MinCtx(c, t)) == CPtr(MinCtx(c', t))
    decreases t
  {
    if t.l.l.Leaf? {
    } else {
      MinParent(Step(c, L, t.n, t.red, t.r), Step(c', L, t.n, t.red, t.r), t.l);
    }
  }

  lemma {:induction false} DropMinOrder(t: Tree)
    requires t.Fork?
    ensures Inorder(t) == [MinTree(t).n] + Inorder(DropMin(t))
    ensures Set(t) == {MinTree(t).n} + Set(DropMin(t)) && MinTree(t).n in Set(t)
  {
    if t.l.Leaf? {
    } else {
      DropMinOrder(t.l);
    }
  }

  lemma {:induction false} DropMinWf(t: Tree)
    requires t.Fork? && Wf(t)
    ensures Wf(DropMin(t)) && MinTree(t).n !in Set(DropMin(t))
  {
    if t.l.Leaf? {
    } else {
      DropMinWf(t.l);
      DropMinOrder(t.l);
    }
  }

  /** The cells after `child` has been hung on the left of `parent`. */
  ghost function Cut(m: Mem, parent: Node, child: Node?): Mem
    requires parent in m && (child != null ==> child in m)
  {
    var m1 := if child == null then m else m[child := m[child].(parent := parent)];
    m1[parent := m1[parent].(left := child)]
  }

  lemma {:induction false} CutTree(m: Mem, c: Ctx, t: Tree, parent: Node?)
    requires t.Fork? && t.l.Fork? && Wf(t) && Linked(m, t, parent)
    ensures var p, child := CPtr(MinCtx(c, t)), MinTree(t).r;
      && p != null && p in Set(t) && p in m && p != MinTree(t).n && MinTree(t).n != t.n && MinTree(t).n in Set(t)
      && (child.Fork? ==>
        child.n in m && child.n in Set(t) && child.n != p && child.n != MinTree(t).n && child.n != t.n)
      && MinTree(t).n in m && m[MinTree(t).n] == Cell(null, Ptr(child), p, MinTree(t).red)
      && Linked(Cut(m, p, Ptr(child)), DropMin(t), parent)
    decreases t
  {
    var c1 := Step(c, L, t.n, t.red, t.r);
    var p, min := CPtr(MinCtx(c1, t.l)), MinTree(t.l);
    assert t.l.n in Set(t.l) && Linked(m, t.l, t.n);
    if t.l.l.Leaf? {
      assert min.r.Fork? ==> min.r.n in Set(min.r) && Linked(m, min.r, min.n);
      var m' := Cut(m, p, Ptr(min.r));
      Reparent(m, m', min.r, min.n, p);
      KeepTree(m, m', t.r, t.n);
    } else {
      CutTree(m, c1, t.l, t.n);
      KeepTree(m, Cut(m, p, Ptr(min.r)), t.r, t.n);
    }
  }

  /** The cells after `node` has taken the place of `old`, with the right child `r`. */
  ghost predicate Swapped(m: Mem, m': Mem, old': Node, node: Node, r: Node?) {
    && old' in m && node in m && m'.Keys == m.Keys && node != old'
    && var l, p := m[old'].left, m[old'].parent;
    && (l != null ==> l in m) && (p != null ==> p in m) && (r != null ==> r in m)
    && m'[node] == m[old'].(right := r)
    && (l != null ==> m'[l] == m[l].(parent := node))
    && (r != null ==> m'[r] == m[r].(parent := node))
    && (p != null ==> m'[p] == Put(m[p], if m[p].left == old' then L else R, node))
    && (forall n <- m :: n != node && n != l && n != r && n != p ==> m'[n] == m[n])
  }

  lemma {:induction false} SwapZip(m: Mem, m': Mem, root: Node?, root': Node?, c: Ctx, l: Tree, old': Node, co: bool,
      r: Tree, node: Node, q: Node?)
    requires Apart(c, l, old', Leaf, node, r)
    requires CLinked(m, c, old') && root == CTop(c, old')
    requires old' in m && m[old'].left == Ptr(l) && m[old'].parent == CPtr(c) && m[old'].red == co
    requires Linked(m, l, old') && Linked(m, r, q)
    requires Swapped(m, m', old', node, Ptr(r))
    requires root' == if c.Top? then node else root
    ensures Zip(m', root', c, Fork(l, node, co, r))
  {
    assert l.Fork? ==> l.n in Set(l);
    assert r.Fork? ==> r.n in Set(r);
    assert c.Step? ==> c.p in CSet(c) && c.p !in Set(c.sib) && (c.sib.Fork? ==> c.sib.n in Set(c.sib));
    Reparent(m, m', l, old', node);
    Reparent(m, m', r, q, node);
    Rehang(m, m', c, old', node);
    assert m'[node] == Cell(Ptr(l), Ptr(r), CPtr(c), co);
    assert Linked(m', Fork(l, node, co, r), CPtr(c));
  }

  // The writes of the splice, as changes of the memory.

  ghost function Hooked(m: Mem, p: Node?, old': Node, node: Node): Mem
    requires p != null ==> p in m
  {
    if p == null then m else m[p := Put(m[p], if m[p].left == old' then L else R, node)]
  }

  ghost function Adopted(m: Mem, node: Node, r: Node): Mem
    requires node in m && r in m
  {
    m[node := m[node].(right := r)][r := m[r].(parent := node)]
  }

  ghost function TakenOver(m: Mem, old': Node, node: Node, l: Node): Mem
    requires old' in m && node in m && l in m
  {
    m[node := m[old'].(right := m[node].right)][l := m[l].(parent := node)]
  }

  ghost function Fostered(m: Mem, l: Node?, r: Node?, node: Node): Mem
    requires (l != null ==> l in m) && (r != null ==> r in m)
  {
    var m1 := if l == null then m else m[l := m[l].(parent := node)];
    if r == null then m1 else m1[r := m1[r].(parent := node)]
  }

  /** The writes of `rb_replace_node`, one after the other. */
  lemma {:induction false} SwappedNew(m: Mem, old': Node, node: Node, l: Node?, r: Node?, p: Node?)
    requires {old', node} + Opt(l) + Opt(r) + Opt(p) <= m.Keys && m[old'] == Cell(l, r, p, m[old'].red)
    requires old' !in {l, r, p, node} && node !in {l, r, p} && (l != null ==> l != r && l != p)
      && (r != null ==> r != p)
    ensures var m' := Fostered(Hooked(m, p, old', node), l, r, node);
      Swapped(m, m'[node := m'[old']], old', node, r)
  {}

  lemma {:induction false} SwappedNear(m: Mem, old': Node, node: Node, l: Node, p: Node?)
    requires old' in m && node in m && l in m && (p != null ==> p in m)
    requires m[old'].left == l && m[old'].parent == p && l !in {old', node} && old' != node
      && (p != null ==> p !in {old', node, l})
    requires var ch := m[node].right;
      ch != null ==> ch in m && ch !in {old', node, l} && ch != p && m[ch].parent == node
    ensures Swapped(m, TakenOver(Hooked(m, p, old', node), old', node, l), old', node, m[node].right)
  {}

  /** The nodes that the splice of `old` with a successor `node` further down writes to. */
  ghost predicate Spread(m: Mem, old': Node, node: Node, l: Node, r: Node, p: Node?, parent: Node, child: Node?) {
    && {old', node, l, r, parent} + Opt(p) + Opt(child) <= m.Keys
    && m[old'].left == l && m[old'].right == r && m[old'].parent == p
    && old' != node && l !in {old', node} && r !in {old', node, l} && (p != null ==> p !in {old', node, l, r})
    && parent !in {old', node, l} && parent != p
    && (child != null ==> child !in {old', node, l, r, parent} && child != p)
  }

  /** The parent's pointer and the cut touch different cells. */
  lemma {:induction false} CutHooked(m: Mem, p: Node?, old': Node, node: Node, parent: Node, child: Node?)
    requires {parent} + Opt(p) + Opt(child) <= m.Keys && p != parent
      && (child != null ==> child != p && child != parent)
    ensures Cut(Hooked(m, p, old', node), parent, child) == Hooked(Cut(m, parent, child), p, old', node)
  {}

  lemma {:induction false} SwappedFar(m: Mem, old': Node, node: Node, l: Node, r: Node, p: Node?)
    requires {old', node, l, r} + Opt(p) <= m.Keys && m[old'].left == l && m[old'].parent == p
    requires old' != node && l !in {old', node} && r !in {old', node, l} && (p != null ==> p !in {old', node, l, r})
    ensures Swapped(m, TakenOver(Adopted(Hooked(m, p, old', node), node, r), old', node, l), old', node, r)
  {}

  lemma {:induction false} SwappedDeep(m: Mem, old': Node, node: Node, l: Node, r: Node, p: Node?, parent: Node,
      child: Node?)
    requires Spread(m, old', node, l, r, p, parent, child)
    ensures Swapped(Cut(m, parent, child),
      TakenOver(Adopted(Cut(Hooked(m, p, old', node), parent, child), node, r), old', node, l), old', node, r)
  {
    CutHooked(m, p, old', node, parent, child);
    SwappedFar(Cut(m, parent, child), old', node, l, r, p);
  }

  lemma {:induction false} NearZip(m: Mem, root: Node?, root': Node?, c: Ctx, t: Tree)
    requires Zip(m, root, c, t) && t.Fork? && t.l.Fork? && t.r.Fork? && t.r.l.Leaf?
    requires root' == if c.Top? then t.r.n else root
    ensures {t.n, t.r.n, t.l.n} + Opt(CPtr(c)) <= m.Keys
    ensures Zip(TakenOver(Hooked(m, CPtr(c), t.n, t.r.n), t.n, t.r.n, t.l.n), root', c, Fork(t.l, t.r.n, t.red, t.r.r))
  {
    var node, ch := t.r.n, t.r.r;
    assert Wf(t.r) && Linked(m, t.r, t.n) && Linked(m, t.l, t.n) && Linked(m, ch, node);
    assert node in Set(t.r) && t.l.n in Set(t.l) && (c.Step? ==> c.p in CSet(c)) && Set(ch) <= Set(t.r) <= Set(t);
    assert ch.Fork? ==> ch.n in Set(ch);
    SwappedNear(m, t.n, node, t.l.n, CPtr(c));
    SwapZip(m, TakenOver(Hooked(m, CPtr(c), t.n, node), t.n, node, t.l.n), root, root', c, t.l, t.n, t.red, ch, node,
      node);
  }

  lemma {:induction false} DeepSpread(m: Mem, c: Ctx, t: Tree, node: Node, parent: Node, child: Node?)
    requires Wf(t) && CWf(c) && CSet(c) !! Set(t) && Linked(m, t, CPtr(c)) && CLinked(m, c, Ptr(t))
    requires t.Fork? && t.l.Fork? && t.r.Fork? && t.r.l.Fork?
    requires node == MinTree(t.r).n && parent == CPtr(MinCtx(c, t.r)) && child == Ptr(MinTree(t.r).r)
    ensures Spread(m, t.n, node, t.l.n, t.r.n, CPtr(c), parent, child)
    ensures parent in Set(t.r) && (child != null ==> child in Set(t.r))
    ensures Linked(Cut(m, parent, child), DropMin(t.r), t.n)
  {
    assert Wf(t.r) && Linked(m, t.r, t.n) && Linked(m, t.l, t.n);
    CutTree(m, c, t.r, t.n);
    assert t.r.n in Set(t.r) && t.l.n in Set(t.l) && (c.Step? ==> c.p in CSet(c));
  }

  lemma {:induction false} DeepApart(c: Ctx, t: Tree)
    requires Wf(t) && CWf(c) && CSet(c) !! Set(t) && t.Fork? && t.l.Fork? && t.r.Fork?
    ensures Apart(c, t.l, t.n, Leaf, MinTree(t.r).n, DropMin(t.r)) && Ptr(DropMin(t.r)) == if t.r.l.Fork? then t.r.n
      else Ptr(t.r.r)
  {
    DropMinOrder(t.r);
    DropMinWf(t.r);
  }

  lemma {:induction false} DeepLinks(m: Mem, c: Ctx, l: Tree, old': Node, r: Tree, r': Tree, node: Node, parent: Node,
      child: Node?)
    requires CLinked(m, c, old') && Linked(m, l, old') && CSet(c) !! Set(r) && Set(l) !! Set(r)
    requires parent in Set(r) && parent in m && (child != null ==> child in Set(r) && child in m)
    ensures CLinked(Cut(m, parent, child), c, old') && Linked(Cut(m, parent, child), l, old')
  {
    KeepTree(m, Cut(m, parent, child), l, old');
    KeepCtx(m, Cut(m, parent, child), c, old');
  }

  lemma {:induction false} DeepZip(m: Mem, m': Mem, root: Node?, root': Node?, c: Ctx, t: Tree, node: Node,
      parent: Node, child: Node?)
    requires Zip(m, root, c, t) && t.Fork? && t.l.Fork? && t.r.Fork? && t.r.l.Fork?
    requires node == MinTree(t.r).n && parent == CPtr(MinCtx(c, t.r)) && child == Ptr(MinTree(t.r).r)
    requires root' == if c.Top? then node else root
    requires Spread(m, t.n, node, t.l.n, t.r.n, CPtr(c), parent, child)
    requires m' == TakenOver(Adopted(Cut(Hooked(m, CPtr(c), t.n, node), parent, child), node, t.r.n), t.n, node, t.l.n)
    ensures Zip(m', root', c, Fork(t.l, node, t.red, DropMin(t.r)))
  {
    var m1 := Cut(m, parent, child);
    DeepSpread(m, c, t, node, parent, child);
    DeepApart(c, t);
    DeepLinks(m, c, t.l, t.n, t.r, DropMin(t.r), node, parent, child);
    SwappedDeep(m, t.n, node, t.l.n, t.r.n, CPtr(c), parent, child);
    SwapZip(m1, m', root, root', c, t.l, t.n, t.red, DropMin(t.r), node, t.n);
  }

  // ----- putting a node in, and putting one node in the place of another

  lemma {:induction false} LinkZip(m: Mem, m': Mem, root: Node?, root': Node?, c: Ctx, node: Node)
    requires Zip(m, root, c, Leaf) && node !in m
    requires node in m' && m'[node] == Cell(null, null, CPtr(c), true)
    requires c.Step? ==> c.p in m && c.p in m' && m'[c.p] == Put(m[c.p], c.side, node)
    requires Same(m, m', CSet(c) - Opt(CPtr(c)))
    requires root' == if c.Top? then node else root
    ensures Zip(m', root', c, Fork(Leaf, node, true, Leaf))
  {
    CLinkedKeys(m, c, null);
    Rehang(m, m', c, null, node);
  }

  /** `t` with `w` standing where `v` stood. */
  ghost function Renamed(t: Tree, v: Node, w: Node): Tree {
    match t
    case Leaf => Leaf
    case Fork(l, n, red, r) => Fork(Renamed(l, v, w), if n == v then w else n, red, Renamed(r, v, w))
  }

  lemma {:induction false} RenamedNot(t: Tree, v: Node, w: Node)
    requires v !in Set(t)
    ensures Renamed(t, v, w) == t
  {
    if t.Leaf? {
    } else {
      RenamedNot(t.l, v, w);
      RenamedNot(t.r, v, w);
    }
  }

  lemma {:induction false} RenamedPlug(c: Ctx, t: Tree, v: Node, w: Node, t': Tree)
    requires v !in CSet(c) && Renamed(t, v, w) == t'
    ensures Renamed(Plug(c, t), v, w) == Plug(c, t')
    decreases c
  {
    if c.Top? {
    } else {
      RenamedNot(c.sib, v, w);
      RenamedPlug(c.up, Mk(c.side, t, c.p, c.red, c.sib), v, w, Mk(c.side, t', c.p, c.red, c.sib));
    }
  }

  lemma {:induction false} RenamedOrder(t: Tree, v: Node, w: Node)
    ensures |Inorder(Renamed(t, v, w))| == |Inorder(t)|
    ensures forall i :: 0 <= i < |Inorder(t)| ==>
      Inorder(Renamed(t, v, w))[i] == if Inorder(t)[i] == v then w else Inorder(t)[i]
  {
    if t.Leaf? {
    } else {
      RenamedOrder(t.l, v, w);
      RenamedOrder(t.r, v, w);
    }
  }
}
