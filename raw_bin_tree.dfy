// Plain binary tree with raw-pointer children (include/binTree/binTree.h).
// Nodes are heap objects whose links may be reassigned by their owner; the
// traversals read the current links and only append to the output vector.
// The spec functions and the output vector are those of module BinTree.

module RawBinTree {
  import opened BinTree

  class Node {
    var value: int
    var left: Node?
    var right: Node?
    /** The nodes reachable from this one, this one included. */
    ghost var Repr: set<Node>

    /**
     * The links reachable from this node contain no cycle.  Subtrees may
     * share nodes: the traversals never write to a node, so sharing only
     * means that a node is visited once per path to it.
     */
    ghost predicate Valid()
      reads this, Repr
      decreases Repr
    {
      && this in Repr
      && (left != null ==>
            left in Repr && left.Repr <= Repr && this !in left.Repr && left.Valid())
      && (right != null ==>
            right in Repr && right.Repr <= Repr && this !in right.Repr && right.Valid())
    }

    /** The tree value the links currently describe. */
    ghost function Abs(): (t: Tree)
      requires Valid()
      reads this, Repr
      ensures t.Node? && t.value == value
      decreases Repr
    {
      Tree.Node(if left == null then Nil else left.Abs(), value, if right == null then Nil else right.Abs())
    }

    /** A node with no children, as `BinTreeNode(value)`. */
    constructor Leaf(v: int)
      ensures value == v && left == null && right == null
      ensures Valid() && Abs() == Tree.Node(Nil, v, Nil)
      ensures Repr == {this}
    {
      value, left, right := v, null, null;
      Repr := {this};
    }

    /** `BinTreeNode(value, left, right)`. */
    constructor (v: int, l: Node?, r: Node?)
      requires l != null ==> l.Valid()
      requires r != null ==> r.Valid()
      ensures value == v && left == l && right == r
      ensures Valid()
      ensures Abs() == Tree.Node(if l == null then Nil else l.Abs(), v,
                                 if r == null then Nil else r.Abs())
      ensures Repr == {this} + (if l == null then {} else l.Repr) + (if r == null then {} else r.Repr)
    {
      value, left, right := v, l, r;
      Repr := {this} + (if l == null then {} else l.Repr) + (if r == null then {} else r.Repr);
    }

    function Visit(): int
      reads this
    {
      value
    }

    method PreOrder(out: Vector?)
      requires Valid()
      modifies out
      ensures out != null ==> out.elems == old(out.elems) + BinTree.PreOrder(Abs())
      decreases Repr
    {
      var v := Visit();
      if out != null { out.PushBack(v); }
      if left != null { left.PreOrder(out); }
      if right != null { right.PreOrder(out); }
    }

    method InOrder(out: Vector?)
      requires Valid()
      modifies out
      ensures out != null ==> out.elems == old(out.elems) + BinTree.InOrder(Abs())
      decreases Repr
    {
      if left != null { left.InOrder(out); }
      var v := Visit();
      if out != null { out.PushBack(v); }
      if right != null { right.InOrder(out); }
    }

    method PostOrder(out: Vector?)
      requires Valid()
      modifies out
      ensures out != null ==> out.elems == old(out.elems) + BinTree.PostOrder(Abs())
      decreases Repr
    {
      if left != null { left.PostOrder(out); }
      if right != null { right.PostOrder(out); }
      var v := Visit();
      if out != null { out.PushBack(v); }
    }

    /** Breadth first through a FIFO queue of node pointers seeded with this node. */
    method LevelOrder(out: Vector?)
      requires Valid()
      modifies out
      ensures out != null ==> out.elems == old(out.elems) + BinTree.LevelOrder(Abs())
    {
      var q: seq<Node> := [this];
      ghost var trees: seq<Tree> := [Abs()];
      // Only the output vector changes, so every queued node keeps the shape it had on entry.
      while q != []
        invariant Tracks(q, trees)
        invariant out != null ==> old(out.elems) + BinTree.LevelOrder(old(Abs())) == out.elems + Bfs(trees)
        decreases SizeSum(trees), |trees|
      {
        var cur := q[0];
        ghost var q0, t0 := q, trees;
        TracksStep(q0, t0);
        BfsStep(t0);
        assert ChildNodes(cur) == old(ChildNodes(cur)) && cur.value == old(cur.value);
        ghost var e0 := if out != null then out.elems else [];
        q := q[1..];
        var v := cur.Visit();
        if out != null { out.PushBack(v); }
        if cur.left != null {
          var child: Node := cur.left;
          q := q + [child];
        }
        if cur.right != null {
          var child: Node := cur.right;
          q := q + [child];
        }
        assert q == q0[1..] + ChildNodes(cur);
        trees := t0[1..] + Children(t0[0]);
        if out != null {
          assert out.elems + Bfs(trees) == e0 + Bfs(t0) by {
            assert out.elems == e0 + [v];
            AppendAssoc(e0, [v], Bfs(trees));
          }
        }
      }
    }
  }

  /** The children of a node, left before right, as the queue receives them. */
  function ChildNodes(n: Node): seq<Node>
    reads n
  {
    (if n.left != null then [n.left] else []) + (if n.right != null then [n.right] else [])
  }

  /** On entry to the level-order loop, each queued node described the matching tree. */
  twostate predicate Tracks(new q: seq<Node>, trees: seq<Tree>)
  {
    && |q| == |trees|
    && forall i :: 0 <= i < |q| ==>
         old(allocated(q[i])) && old(q[i].Valid()) && old(q[i].Abs()) == trees[i]
  }

  /** Dequeuing the head and enqueuing its children keeps the queue tracking the trees. */
  twostate lemma TracksStep(new q: seq<Node>, trees: seq<Tree>)
    requires Tracks(q, trees) && q != []
    ensures old(allocated(q[0]))
    ensures trees[0].Node? && trees[0].value == old(q[0].value)
    ensures Tracks(q[1..] + old(ChildNodes(q[0])), trees[1..] + Children(trees[0]))
  {
    var n := q[0];
    var kids := old(ChildNodes(n));
    var next := q[1..] + kids;
    var ts := trees[1..] + Children(trees[0]);
    forall i | 0 <= i < |next|
      ensures old(allocated(next[i])) && old(next[i].Valid()) && old(next[i].Abs()) == ts[i]
    {
      if i >= |q| - 1 {
        assert next[i] in kids;
      }
    }
  }

  /** Which of the four traversals to run. */
  datatype Order = Pre | In | Post | Level

  /** The sequence a traversal of the given order outputs. */
  function Listing(order: Order, t: Tree): seq<int>
  {
    match order
    case Pre => BinTree.PreOrder(t)
    case In => BinTree.InOrder(t)
    case Post => BinTree.PostOrder(t)
    case Level => BinTree.LevelOrder(t)
  }

  /** One traversal into a fresh vector, whose contents are returned. */
  method Collect(root: Node, order: Order) returns (s: seq<int>)
    requires root.Valid()
    ensures s == Listing(order, root.Abs())
  {
    var res := new Vector();
    match order {
      case Pre => root.PreOrder(res);
      case In => root.InOrder(res);
      case Post => root.PostOrder(res);
      case Level => root.LevelOrder(res);
    }
    s := res.elems;
  }

  /** The four outputs of a tree, each into a fresh vector. */
  method AllOrders(root: Node) returns (r: seq<seq<int>>)
    requires root.Valid()
    ensures r == [BinTree.PreOrder(root.Abs()), BinTree.InOrder(root.Abs()),
                  BinTree.PostOrder(root.Abs()), BinTree.LevelOrder(root.Abs())]
  {
    var pre := Collect(root, Pre);
    var ino := Collect(root, In);
    var post := Collect(root, Post);
    var level := Collect(root, Level);
    r := [pre, ino, post, level];
  }

  /** The node that `path` (true for right) leads to from `r`, if any. */
  ghost function Target(r: Node, path: seq<bool>): Node?
    requires r.Valid()
    reads r, r.Repr
    decreases |path|
  {
    if path == [] then r
    else if path[0] then (if r.right == null then null else Target(r.right, path[1..]))
    else (if r.left == null then null else Target(r.left, path[1..]))
  }

  /**
   * `path` leads to a node and no subtree beside the path holds that node,
   * so it occurs once in the linked tree.
   */
  ghost predicate Unshared(r: Node, path: seq<bool>)
    requires r.Valid()
    reads r, r.Repr
    decreases |path|
  {
    if path == [] then true
    else if path[0] then
      && r.right != null && Target(r.right, path[1..]) != null
      && (r.left != null ==> Target(r.right, path[1..]) !in r.left.Repr)
      && Unshared(r.right, path[1..])
    else
      && r.left != null && Target(r.left, path[1..]) != null
      && (r.right != null ==> Target(r.left, path[1..]) !in r.right.Repr)
      && Unshared(r.left, path[1..])
  }

  /**
   * After the two links of the node at `path` are cleared and nothing else
   * in the tree changes, the tree that `r` describes is the old one with
   * that node's children detached.  (`path` holds no references, so it
   * may be marked `new`; the verifier then checks no allocation for it.)
   */
  twostate lemma {:induction false} DetachedAbs(r: Node, new path: seq<bool>)
    requires old(r.Valid()) && old(Unshared(r, path))
    requires old(Target(r, path)) != null
    requires unchanged(old(r.Repr) - {old(Target(r, path))})
    requires old(Target(r, path)).left == null && old(Target(r, path)).right == null
    requires old(Target(r, path)).value == old(Target(r, path).value)
    requires old(Target(r, path)).Repr == old(Target(r, path).Repr)
    ensures old(Target(r, path) in r.Repr)
    ensures old(BinTree.At(r.Abs(), path).Node?)
    ensures r.Valid() && r.Abs() == DetachChildren(old(r.Abs()), path)
    decreases |path|
  {
    if path != [] && path[0] {
      DetachedAbs(old(r.right), path[1..]);
      assert r != old(Target(r, path));
      if old(r.left) != null {
        Unaffected(old(r.left), old(Target(r, path)));
      }
    } else if path != [] {
      DetachedAbs(old(r.left), path[1..]);
      assert r != old(Target(r, path));
      if old(r.right) != null {
        Unaffected(old(r.right), old(Target(r, path)));
      }
    }
  }

  /** A subtree without `n` keeps its links and its tree. */
  twostate lemma Unaffected(o: Node, new n: Node)
    requires old(o.Valid()) && n !in old(o.Repr) && unchanged(old(o.Repr))
    ensures o.Valid() && o.Abs() == old(o.Abs())
  {
  }

  /**
   * `n->_left = n->_right = nullptr` on the node that `path` leads to: the
   * clearing is made in place, and the tree seen from the root loses
   * exactly that node's two subtrees.
   */
  method ClearLinks(root: Node, n: Node, ghost path: seq<bool>)
    requires root.Valid() && Unshared(root, path) && Target(root, path) == n
    modifies n
    ensures root.Valid() && old(BinTree.At(root.Abs(), path).Node?)
    ensures root.Abs() == DetachChildren(old(root.Abs()), path)
  {
    n.left, n.right := null, null;
    DetachedAbs(root, path);
  }

  /** The tree 4 (2 (1, 3), 6 (5, 7)) of the traversal test, built bottom-up. */
  method BuildSample() returns (n4: Node, n6: Node, n1: Node)
    ensures n4.Valid() && n4.Abs() == SampleTree()
    ensures n1.Valid() && n1.Abs() == Tree.Node(Nil, 1, Nil)
    ensures Unshared(n4, [true]) && Target(n4, [true]) == n6 && fresh(n6)
  {
    n1 := new Node.Leaf(1);
    var n3 := new Node.Leaf(3);
    var n2 := new Node(2, n1, n3);
    assert n2.Repr == {n2, n1, n3};
    assert n2.Abs() == SampleTree().left;
    var n5 := new Node.Leaf(5);
    var n7 := new Node.Leaf(7);
    n6 := new Node(6, n5, n7);
    assert n6.Repr == {n6, n5, n7};
    assert n6.Abs() == SampleTree().right;
    n4 := new Node(4, n2, n6);
    assert n4.Repr == {n4, n2, n1, n3, n6, n5, n7};
    assert Target(n6, []) == n6;
  }

  /**
   * The traversal test: the sample tree is traversed, then the leaf 1 on
   * its own, then node 6's links are cleared in place and the same root is
   * traversed again.
   */
  method DetachScenario() returns (before: seq<seq<int>>, leaf: seq<seq<int>>, after: seq<seq<int>>)
    ensures before == [[4, 2, 1, 3, 6, 5, 7], [1, 2, 3, 4, 5, 6, 7], [1, 3, 2, 5, 7, 6, 4], [4, 2, 6, 1, 3, 5, 7]]
    ensures leaf == [[1], [1], [1], [1]]
    ensures after == [[4, 2, 1, 3, 6], [1, 2, 3, 4, 6], [1, 3, 2, 6, 4], [4, 2, 6, 1, 3]]
  {
    var n4, n6, n1 := BuildSample();
    SampleDepthFirst();
    SampleLevelOrder();
    before := AllOrders(n4);
    LeafOrders(1);
    leaf := AllOrders(n1);
    ClearLinks(n4, n6, [true]);
    SampleDetached();
    SampleDetachedLevelOrder();
    after := AllOrders(n4);
  }
}
