/** The ordered descents that the library leaves to its user (tests/rbtree_test.c): search,
    insertion and deletion of numbers, and whole runs of them. */
module RbUse {
  import opened Powers
  import opened RbModel
  import opened RbBalance
  import opened RbTree

  ghost predicate Ascending(s: seq<Node>) {
    forall i, j :: 0 <= i < j < |s| ==> s[i].num < s[j].num
  }

  ghost function Nums(s: set<Node>): set<int> {
    set n <- s :: n.num
  }

  /** A red-black tree whose numbers ascend. */
  ghost predicate Sorted(root: Root)
    reads root, root.nodes
  {
    root.Valid() && Ascending(root.Order())
  }

  ghost predicate AllBelow(s: seq<Node>, num: int) {
    forall i :: 0 <= i < |s| ==> s[i].num < num
  }

  ghost predicate AllAbove(s: seq<Node>, num: int) {
    forall i :: 0 <= i < |s| ==> num < s[i].num
  }

  /** The descent to `num` has come to the hole of `c`. */
  ghost predicate Narrowed(c: Ctx, num: int) {
    AllBelow(Before(c), num) && AllAbove(After(c), num)
  }

  lemma {:induction false} AscendingAt(c: Ctx, t: Tree)
    requires t.Fork? && Ascending(Inorder(Plug(c, t)))
    ensures AllBelow(Inorder(t.l), t.n.num) && AllAbove(Inorder(t.r), t.n.num)
  {
    MiddleOf(c, t);
    AscendingSides(Before(c) + Inorder(t.l), t.n, Inorder(t.r) + After(c));
    var l, r := Inorder(t.l), Inorder(t.r);
    forall i | 0 <= i < |l| ensures l[i].num < t.n.num {
      assert (Before(c) + l)[|Before(c)| + i] == l[i];
    }
    forall i | 0 <= i < |r| ensures t.n.num < r[i].num {
      assert (r + After(c))[i] == r[i];
    }
  }

  lemma {:induction false} AscendingSides(a: seq<Node>, n: Node, b: seq<Node>)
    requires Ascending(a + [n] + b)
    ensures AllBelow(a, n.num) && AllAbove(b, n.num)
  {
    var s := a + [n] + b;
    assert s[|a|] == n;
    forall i | 0 <= i < |a| ensures a[i].num < n.num {
      assert s[i] == a[i];
    }
    forall i | 0 <= i < |b| ensures n.num < b[i].num {
      assert s[|a| + 1 + i] == b[i];
    }
  }

  /** One step down keeps everything that is left behind on its side of `num`. */
  lemma {:induction false} NarrowStep(c: Ctx, t: Tree, num: int)
    requires t.Fork? && Ascending(Inorder(Plug(c, t))) && Narrowed(c, num)
    ensures num < t.n.num ==> Narrowed(Step(c, L, t.n, t.red, t.r), num)
    ensures num > t.n.num ==> Narrowed(Step(c, R, t.n, t.red, t.l), num)
  {
    AscendingAt(c, t);
  }

  /** At an empty hole the number is not in the tree. */
  lemma {:induction false} NotThere(c: Ctx, num: int)
    requires Narrowed(c, num)
    ensures num !in Nums(Set(Plug(c, Leaf)))
  {
    var t := Plug(c, Leaf);
    PlugInorder(c, Leaf);
    InorderSet(t);
    forall n <- Set(t) ensures n.num != num {
      var i :| 0 <= i < |Inorder(t)| && Inorder(t)[i] == n;
      assert n == if i < |Before(c)| then Before(c)[i] else After(c)[i - |Before(c)|];
    }
  }

  lemma {:induction false} SearchBound(root: Root, steps: nat)
    requires root.Valid() && steps <= Height(root.tree)
    ensures Pow2(steps) <= (|root.Order()| + 1) * (|root.Order()| + 1)
  {
    HeightBound(root.tree);
    Pow2Grows(steps, Height(root.tree));
  }

  /** `my_search`: finds exactly the members, in at most 2 log2(n + 1) turns of its loop. */
  method MySearch(root: Root, num: int) returns (r: Node?, ghost steps: nat)
    requires Sorted(root)
    ensures r == null ==> num !in Nums(root.nodes)
    ensures r != null ==> r in root.nodes && r.num == num
    ensures Pow2(steps) <= (|root.Order()| + 1) * (|root.Order()| + 1)
  {
    var node := root.rb_node;
    ghost var c, t := Top, root.tree;
    steps := 0;
    while node != null
      invariant root.At(c, t) && node == Ptr(t) && Plug(c, t) == root.tree && Narrowed(c, num)
      invariant steps + Height(t) <= Height(root.tree)
      decreases t
    {
      root.Around(c, t);
      NarrowStep(c, t, num);
      steps := steps + 1;
      if num < node.num {
        root.Descend(c, t, L);
        c, t := Step(c, L, t.n, t.red, t.r), t.l;
        node := node.left;
      } else if num > node.num {
        root.Descend(c, t, R);
        c, t := Step(c, R, t.n, t.red, t.l), t.r;
        node := node.right;
      } else {
        SearchBound(root, steps);
        return node, steps;
      }
    }
    NotThere(c, num);
    SearchBound(root, steps);
    return null, steps;
  }

  lemma {:induction false} AscendingInsert(c: Ctx, n: Node)
    requires Ascending(Inorder(Plug(c, Leaf))) && Narrowed(c, n.num)
    ensures Ascending(Inorder(Plug(c, Fork(Leaf, n, true, Leaf))))
  {
    PlugInorder(c, Leaf);
    PlugInorder(c, Fork(Leaf, n, true, Leaf));
    assert Inorder(Fork(Leaf, n, true, Leaf)) == [n];
    AscendingMiddle(Before(c), n, After(c));
  }

  lemma {:induction false} AscendingMiddle(a: seq<Node>, n: Node, b: seq<Node>)
    requires Ascending(a + [] + b) && AllBelow(a, n.num) && AllAbove(b, n.num)
    ensures Ascending(a + [n] + b)
  {
    var s, s' := a + [] + b, a + [n] + b;
    forall i, j | 0 <= i < j < |s'| ensures s'[i].num < s'[j].num {
      var i', j' := if i < |a| then i else i - 1, if j < |a| then j else j - 1;
      assert i != |a| ==> s'[i] == s[i'];
      assert j != |a| ==> s'[j] == s[j'];
    }
  }

  /** `my_insert`: -1 and no change at all when the number is there, else the node goes in. */
  method MyInsert(root: Root, data: Node) returns (r: int)
    requires Sorted(root)
    modifies root, root.nodes, data
    ensures Sorted(root) && root.turns <= old(root.turns) + 2
    ensures r == if data.num in Nums(old(root.nodes)) then -1 else 0
    ensures root.nodes == if r == 0 then old(root.nodes) + {data} else old(root.nodes)
    ensures r == -1 ==>
      root.Memory() == old(root.Memory()) && root.rb_node == old(root.rb_node) && root.tree == old(root.tree)
    ensures r == -1 ==> unchanged(data)
  {
    ghost var c;
    var there, parent, tmp;
    there, parent, tmp, c := FindPlace(root, data.num);
    if there {
      return -1;
    }
    NotThere(c, data.num);
    AscendingInsert(c, data);
    PlugSet(c, Leaf);
    PlugSet(c, Fork(Leaf, data, true, Leaf));
    InsertReadyLeaf(c, data);
    root.LinkNode(data, parent, tmp, c);
    root.InsertColor(data, c, Fork(Leaf, data, true, Leaf));
    r := 0;
  }

  lemma {:induction false} InsertReadyLeaf(c: Ctx, n: Node)
    requires RedBlack(Plug(c, Leaf))
    ensures InsertReady(c, Fork(Leaf, n, true, Leaf))
  {
    PlugRedBlack(c, Leaf);
  }

  /** The loop of `my_insert`: the link where the number belongs, or the finding that it is there. */
  method FindPlace(root: Root, num: int) returns (there: bool, parent: Node?, tmp: Link, ghost c: Ctx)
    requires Sorted(root)
    ensures there ==> num in Nums(root.nodes)
    ensures !there ==>
      root.At(c, Leaf) && Plug(c, Leaf) == root.tree && Narrowed(c, num) && parent == CPtr(c) && tmp == LinkOf(c)
  {
    tmp, parent, c := AtRoot, null, Top;
    ghost var t := root.tree;
    while root.Deref(tmp) != null
      invariant root.At(c, t) && root.Deref(tmp) == Ptr(t) && parent == CPtr(c) && tmp == LinkOf(c)
      invariant Plug(c, t) == root.tree && Narrowed(c, num)
      decreases t
    {
      var this' := root.Deref(tmp);
      NarrowStep(c, t, num);
      root.Around(c, t);
      parent := this';
      if num < this'.num {
        root.Descend(c, t, L);
        c, t := Step(c, L, t.n, t.red, t.r), t.l;
        tmp := LeftOf(this');
      } else if num > this'.num {
        root.Descend(c, t, R);
        c, t := Step(c, R, t.n, t.red, t.l), t.r;
        tmp := RightOf(this');
      } else {
        PlugSet(c, t);
        return true, parent, tmp, c;
      }
    }
    there := false;
  }

  lemma {:induction false} AscendingRemove(s: seq<Node>, k: nat)
    requires Ascending(s) && k < |s|
    ensures Ascending(s[..k] + s[k + 1..])
  {
    var s' := s[..k] + s[k + 1..];
    forall i, j | 0 <= i < j < |s'| ensures s'[i].num < s'[j].num {
      assert s'[i] == s[if i < k then i else i + 1] && s'[j] == s[if j < k then j else j + 1];
    }
  }

  lemma {:induction false} AscendingInjective(root: Root, x: Node, y: Node)
    requires Sorted(root) && x in root.nodes && y in root.nodes && x.num == y.num
    ensures x == y
  {
    InorderSet(root.tree);
    var i :| 0 <= i < |root.Order()| && root.Order()[i] == x;
    var j :| 0 <= j < |root.Order()| && root.Order()[j] == y;
  }

  /** `my_delete`: the number is gone, all the other nodes stay. */
  method MyDelete(root: Root, num: int)
    requires Sorted(root)
    modifies root, root.nodes
    ensures Sorted(root) && root.nodes <= old(root.nodes) && root.turns <= old(root.turns) + 3
    ensures Nums(root.nodes) == Nums(old(root.nodes)) - {num}
  {
    var data;
    ghost var steps;
    data, steps := MySearch(root, num);
    if data == null {
      return;
    }
    ghost var s := root.nodes;
    forall n <- s | n.num == num ensures n == data {
      AscendingInjective(root, n, data);
    }
    ghost var k, order := 0, root.Order();
    k := root.Erase(data);
    AscendingRemove(order, k);
  }

  // ----- whole runs

  datatype Op = Insert(num: int) | Delete(num: int) | Search(num: int)

  datatype Answer = Inserted(r: int) | Deleted | Found(yes: bool)

  /** What an operation answers, and does, when it works on a set of numbers. */
  ghost function AnswerOn(s: set<int>, op: Op): Answer {
    match op
    case Insert(k) => Inserted(if k in s then -1 else 0)
    case Delete(_) => Deleted
    case Search(k) => Found(k in s)
  }

  ghost function SetNext(s: set<int>, op: Op): set<int> {
    match op
    case Insert(k) => s + {k}
    case Delete(k) => s - {k}
    case Search(_) => s
  }

  ghost function AnswersOn(s: set<int>, ops: seq<Op>): seq<Answer>
    decreases ops
  {
    if ops == [] then [] else [AnswerOn(s, ops[0])] + AnswersOn(SetNext(s, ops[0]), ops[1..])
  }

  ghost function SetAfter(s: set<int>, ops: seq<Op>): set<int>
    decreases ops
  {
    if ops == [] then s else SetAfter(SetNext(s, ops[0]), ops[1..])
  }

  method Perform(root: Root, op: Op) returns (a: Answer)
    requires Sorted(root)
    modifies root, root.nodes
    ensures Sorted(root) && fresh(root.nodes - old(root.nodes))
    ensures a == AnswerOn(Nums(old(root.nodes)), op) && Nums(root.nodes) == SetNext(Nums(old(root.nodes)), op)
  {
    match op {
      case Insert(k) =>
        var data := new Node(k);
        var r;
        r := MyInsert(root, data);
        a := Inserted(r);
      case Delete(k) =>
        MyDelete(root, k);
        a := Deleted;
      case Search(k) =>
        var n;
        ghost var steps;
        n, steps := MySearch(root, k);
        a := Found(n != null);
    }
  }

  lemma {:induction false} OneMore(s: set<int>, ops: seq<Op>, i: nat, out: seq<Answer>)
    requires i < |ops|
    ensures out + AnswersOn(s, ops[i..]) == out + [AnswerOn(s, ops[i])] + AnswersOn(SetNext(s, ops[i]), ops[i + 1..])
    ensures SetAfter(s, ops[i..]) == SetAfter(SetNext(s, ops[i]), ops[i + 1..])
  {
    assert ops[i..][0] == ops[i] && ops[i..][1..] == ops[i + 1..];
    var one, rest := [AnswerOn(s, ops[i])], AnswersOn(SetNext(s, ops[i]), ops[i + 1..]);
    assert out + (one + rest) == out + one + rest;
  }

  /** Every run from the empty tree answers as a finite set of numbers does, and ends in a sorted red-black tree of
      it. */
  method Run(ops: seq<Op>) returns (root: Root, out: seq<Answer>)
    ensures fresh(root) && Sorted(root) && Nums(root.nodes) == SetAfter({}, ops)
    ensures out == AnswersOn({}, ops)
  {
    root := new Root();
    out := [];
    ghost var s: set<int> := {};
    for i := 0 to |ops|
      invariant fresh(root) && fresh(root.nodes) && Sorted(root) && Nums(root.nodes) == s
      invariant out + AnswersOn(s, ops[i..]) == AnswersOn({}, ops)
      invariant SetAfter(s, ops[i..]) == SetAfter({}, ops)
    {
      var a := Perform(root, ops[i]);
      OneMore(s, ops, i, out);
      out, s := out + [a], SetNext(s, ops[i]);
    }
  }
}
