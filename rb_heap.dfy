/**
 * The red-black tree functions of include/tree/RBTree.h on linked nodes:
 * Search, LeftRotate, RightRotate, Insert, __Insert_Adjust, Remove and
 * __Remove_Adjust update the node records field by field, as the source
 * does, and each is proved to compute what the value model in RedBlack,
 * RedBlackInsert and RedBlackRemove computes.
 *
 * `RBTreeStore` holds every node object ever created (`nodes`, indexed by
 * pointer) and a ghost `shape`, the tree of pointers reachable from the
 * root.  The root pointer itself is what the source passes around as
 * `RBTree &root`: it is a parameter and a result of the methods.
 */
module RedBlackHeap {
  import opened RedBlack
  import opened RedBlackShape
  import RedBlackInsert
  import RedBlackRemove

  class RBTreeStore {
    var nodes: seq<RBNode>
    ghost var shape: Shape
    /** The source's ALLOW_DUP template parameter. */
    const allowDup: bool

    /** The pointers reachable from the root form the tree `shape`, each node once. */
    ghost predicate Valid()
      reads this
    {
      Links(nodes, shape, Null) && Distinct(shape)
    }

    /** The tree the linked nodes hold. */
    ghost function Abs(): Tree
      reads this
    {
      Value(nodes, shape)
    }

    /** An empty tree: the root pointer is null. */
    constructor (allowDup: bool)
      ensures Valid() && nodes == [] && shape == Empty && Abs() == Leaf
      ensures this.allowDup == allowDup
    {
      nodes := [];
      shape := Empty;
      this.allowDup := allowDup;
    }

    /** `p->_color = c`. */
    method SetColor(p: int, c: Color)
      requires Valid() && 0 <= p < |nodes|
      modifies this
      ensures nodes == Paint(old(nodes), p, c) && shape == old(shape) && Valid()
    {
      nodes := nodes[p := nodes[p].(color := c)];
      LinksPointers(old(nodes), nodes, shape, Null);
    }

    /**
     * LeftRotate(top): the right child `that` takes the place of `top`, which
     * becomes its left child and takes over its old left subtree.  The result
     * is the new top of the rotated subtree (the source rebinds `top`).
     */
    method LeftRotate(top: int, ghost s: Shape, ghost steps: seq<Step>) returns (that: int)
      requires Valid() && shape == Graft(s, steps)
      requires s.Knot? && s.id == top && s.right.Knot?
      modifies this
      ensures Valid() && shape == Graft(ShapeRotateLeft(s), steps) && that == s.right.id
      ensures SamePayload(old(nodes), nodes)
      ensures old(Value(nodes, s)).Node? && old(Value(nodes, s)).right.Node?
      ensures Abs() == Plug(RotateLeft(old(Value(nodes, s))), old(Frames(nodes, steps)))
    {
      ghost var ns0 := nodes;
      View(nodes, s, steps);
      assert Links(nodes, s.right, top) && Links(nodes, s.right.left, s.right.id);
      that := LeftRelink(top);
      LeftRotateLinks(ns0, s, steps);
      LeftRotateValue(ns0, s, steps);
      shape := Graft(ShapeRotateLeft(s), steps);
    }

    /** RightRotate(top): the mirror image of LeftRotate. */
    method RightRotate(top: int, ghost s: Shape, ghost steps: seq<Step>) returns (that: int)
      requires Valid() && shape == Graft(s, steps)
      requires s.Knot? && s.id == top && s.left.Knot?
      modifies this
      ensures Valid() && shape == Graft(ShapeRotateRight(s), steps) && that == s.left.id
      ensures SamePayload(old(nodes), nodes)
      ensures old(Value(nodes, s)).Node? && old(Value(nodes, s)).left.Node?
      ensures Abs() == Plug(RotateRight(old(Value(nodes, s))), old(Frames(nodes, steps)))
    {
      ghost var ns0 := nodes;
      View(nodes, s, steps);
      assert Links(nodes, s.left, top) && Links(nodes, s.left.right, s.left.id);
      that := RightRelink(top);
      RightRotateLinks(ns0, s, steps);
      RightRotateValue(ns0, s, steps);
      shape := Graft(ShapeRotateRight(s), steps);
    }

    /** The pointer assignments of LeftRotate, in the source's order. */
    method LeftRelink(self: int) returns (that: int)
      requires 0 <= self < |nodes| && 0 <= nodes[self].right < |nodes|
      requires nodes[self].parent == Null || 0 <= nodes[self].parent < |nodes|
      requires nodes[nodes[self].right].left == Null || 0 <= nodes[nodes[self].right].left < |nodes|
      modifies this
      ensures nodes == LeftRotated(old(nodes), self) && that == old(nodes[self].right) && shape == old(shape)
    {
      that := nodes[self].right;
      var parent := nodes[self].parent;
      nodes := nodes[self := nodes[self].(parent := that)];
      nodes := nodes[self := nodes[self].(right := nodes[that].left)];
      nodes := nodes[that := nodes[that].(left := self)];
      nodes := nodes[that := nodes[that].(parent := parent)];
      if nodes[self].right != Null {
        nodes := nodes[nodes[self].right := nodes[nodes[self].right].(parent := self)];
      }
      if parent != Null {
        if nodes[parent].left == self {
          nodes := nodes[parent := nodes[parent].(left := that)];
        } else {
          nodes := nodes[parent := nodes[parent].(right := that)];
        }
      }
    }

    /** The pointer assignments of RightRotate, in the source's order. */
    method RightRelink(self: int) returns (that: int)
      requires 0 <= self < |nodes| && 0 <= nodes[self].left < |nodes|
      requires nodes[self].parent == Null || 0 <= nodes[self].parent < |nodes|
      requires nodes[nodes[self].left].right == Null || 0 <= nodes[nodes[self].left].right < |nodes|
      modifies this
      ensures nodes == RightRotated(old(nodes), self) && that == old(nodes[self].left) && shape == old(shape)
    {
      that := nodes[self].left;
      var parent := nodes[self].parent;
      nodes := nodes[self := nodes[self].(left := nodes[that].right)];
      nodes := nodes[self := nodes[self].(parent := that)];
      nodes := nodes[that := nodes[that].(right := self)];
      nodes := nodes[that := nodes[that].(parent := parent)];
      if nodes[self].left != Null {
        nodes := nodes[nodes[self].left := nodes[nodes[self].left].(parent := self)];
      }
      if parent != Null {
        if nodes[parent].left == self {
          nodes := nodes[parent := nodes[parent].(left := that)];
        } else {
          nodes := nodes[parent := nodes[parent].(right := that)];
        }
      }
    }

    /**
     * Search(root, value): walk down from the root, left on a smaller value
     * and right on a larger one, until the value or a null pointer is met.
     * The ghost results place the node found in the tree.
     */
    method Search(root: int, value: int) returns (cur: int, ghost s: Shape, ghost steps: seq<Step>)
      requires Valid() && root == Id(shape)
      ensures shape == Graft(s, steps) && Id(s) == cur && Links(nodes, s, Up(steps))
      ensures Locate(Abs(), value, []) ==
        if cur == Null then None else Some((Value(nodes, s), Frames(nodes, steps)))
    {
      cur, s, steps := root, shape, [];
      while cur != Null
        invariant shape == Graft(s, steps) && Id(s) == cur && Links(nodes, s, Up(steps))
        invariant Locate(Abs(), value, []) == Locate(Value(nodes, s), value, Frames(nodes, steps))
        decreases s
      {
        if value == nodes[cur].value {
          break;
        } else if value < nodes[cur].value {
          assert Frames(nodes, [InLeft(cur, s.right)] + steps) == [FrameOf(nodes, InLeft(cur, s.right))] + Frames(nodes, steps);
          cur, s, steps := nodes[cur].left, s.left, [InLeft(cur, s.right)] + steps;
        } else {
          assert Frames(nodes, [InRight(s.left, cur)] + steps) == [FrameOf(nodes, InRight(s.left, cur))] + Frames(nodes, steps);
          cur, s, steps := nodes[cur].right, s.right, [InRight(s.left, cur)] + steps;
        }
      }
    }

    /**
     * Insert(root, value): an empty tree gets a black root; otherwise walk
     * down (left on a value not above the node's, right otherwise), refuse
     * an equal value unless duplicates are allowed, hang a new red node at
     * the null pointer reached and run __Insert_Adjust on it.
     */
    method Insert(root: int, value: int) returns (ok: bool, newRoot: int)
      requires Valid() && root == Id(shape) && IsBlack(Abs())
      modifies this
      ensures Valid() && newRoot == Id(shape)
      ensures (ok, Abs()) == RedBlackInsert.Insert(old(Abs()), value, allowDup)
      ensures ok ==> |nodes| == old(|nodes|) + 1
      ensures !ok ==> nodes == old(nodes) && shape == old(shape)
    {
      ghost var ns0 := nodes;
      if root == Null {
        nodes := nodes + [RBNode(Black, value, Null, Null, Null)];
        shape := Knot(Empty, |nodes| - 1, Empty);
        return true, |nodes| - 1;
      }
      var parent := Null;
      var cur := root;
      ghost var s := shape;
      ghost var steps: seq<Step> := [];
      while cur != Null
        invariant nodes == ns0 && shape == old(shape)
        invariant shape == Graft(s, steps) && Id(s) == cur && Links(nodes, s, Up(steps)) && parent == Up(steps)
        invariant RedBlackInsert.Descend(Abs(), value, allowDup, []) ==
                  RedBlackInsert.Descend(Value(nodes, s), value, allowDup, Frames(nodes, steps))
        invariant cur == Null ==> steps != []
        invariant steps != [] ==> (steps[0].InLeft? <==> value <= At(nodes, steps[0].id).value)
        decreases s
      {
        if !allowDup && value == nodes[cur].value {
          return false, root;
        }
        parent := cur;
        if value <= nodes[cur].value {
          assert Frames(nodes, [InLeft(cur, s.right)] + steps) == [FrameOf(nodes, InLeft(cur, s.right))] + Frames(nodes, steps);
          cur, s, steps := nodes[cur].left, s.left, [InLeft(cur, s.right)] + steps;
        } else {
          assert Frames(nodes, [InRight(s.left, cur)] + steps) == [FrameOf(nodes, InRight(s.left, cur))] + Frames(nodes, steps);
          cur, s, steps := nodes[cur].right, s.right, [InRight(s.left, cur)] + steps;
        }
      }
      assert s == Empty;
      ghost var path := Frames(nodes, steps);
      assert RedBlackInsert.Descend(Abs(), value, allowDup, []) == Some(path);
      PlugTop(Leaf, path);
      cur := AttachRed(parent, value, steps);
      ok := true;
      newRoot := InsertAdjust(cur, root, Knot(Empty, cur, Empty), steps);
    }

    /**
     * The new red node for `value`: `make_shared(RED, value)`, its parent
     * set to `parent`, and the parent's child pointer on the side the
     * comparison picks set to it.
     */
    method AttachRed(parent: int, value: int, ghost steps: seq<Step>) returns (cur: int)
      requires Valid() && shape == Graft(Empty, steps) && steps != [] && parent == steps[0].id
      requires steps[0].InLeft? <==> value <= At(nodes, parent).value
      modifies this
      ensures Valid() && shape == Graft(Knot(Empty, cur, Empty), steps) && Id(shape) == old(Id(shape))
      ensures cur == old(|nodes|) && |nodes| == old(|nodes|) + 1
      ensures At(nodes, cur).color == Red && Value(nodes, Knot(Empty, cur, Empty)) == Node(Red, Leaf, value, Leaf)
      ensures Frames(nodes, steps) == old(Frames(nodes, steps))
    {
      ghost var ns0 := nodes;
      View(nodes, Empty, steps);
      cur := |nodes|;
      nodes := nodes + [RBNode(Red, value, Null, Null, Null)];
      nodes := nodes[cur := nodes[cur].(parent := parent)];
      if value <= nodes[parent].value {
        nodes := nodes[parent := nodes[parent].(left := cur)];
      } else {
        nodes := nodes[parent := nodes[parent].(right := cur)];
      }
      assert SameOn(ns0, nodes, StepsIds(steps) - {parent}) by {
        LinksRange(ns0, shape, Null);
        forall i | i in StepsIds(steps) - {parent}
          ensures At(nodes, i) == At(ns0, i)
        {
          assert i in Ids(shape);
        }
      }
      AttachLeaf(ns0, nodes, cur, steps);
      shape := Graft(Knot(Empty, cur, Empty), steps);
    }

    /**
     * __Insert_Adjust(cur, root) for the red node `cur`: recolour and rotate
     * upwards until no red node has a red parent.  The result is the new root.
     */
    method InsertAdjust(cur: int, root: int, ghost s: Shape, ghost steps: seq<Step>) returns (newRoot: int)
      requires Valid() && shape == Graft(s, steps) && root == Id(shape)
      requires s.Knot? && s.id == cur && At(nodes, cur).color == Red
      requires TopBlack(Frames(nodes, steps))
      modifies this
      ensures Valid() && newRoot == Id(shape) && |nodes| == old(|nodes|)
      ensures old(Value(nodes, s)).Node? && old(Value(nodes, s)).color == Red
      ensures Abs() == RedBlackInsert.InsertFix(old(Value(nodes, s)), old(Frames(nodes, steps)))
      decreases |steps|, 1
    {
      ghost var ns0 := nodes;
      View(nodes, s, steps);
      var parent := nodes[cur].parent;
      if parent == Null {
        assert steps == [];
        SetColor(cur, Black);
        PaintValue(ns0, cur, Black, s);
        return root;
      }
      if nodes[parent].color == Black {
        return root;
      }
      var grand := nodes[parent].parent;
      assert |steps| >= 2;
      GraftTwo(nodes, s, steps);
      assert StepsLinked(nodes, parent, steps[1..]);
      assert Ids(Hang(s, steps[0])) !! Ids(Side(steps[1])) by {
        View(nodes, Hang(s, steps[0]), steps[1..]);
      }
      ChildSide(nodes, parent, steps[1..]);
      if parent == nodes[grand].left {
        var uncle := nodes[grand].right;
        BlackNodeValue(nodes, steps[1].right, grand);
        if !NodeIsBlack(nodes, uncle) {
          newRoot := InsertRecolor(parent, uncle, grand, root, s, steps);
        } else {
          newRoot := InsertRotateLeftSide(cur, parent, grand, root, s, steps);
        }
      } else {
        var uncle := nodes[grand].left;
        BlackNodeValue(nodes, steps[1].left, grand);
        if !NodeIsBlack(nodes, uncle) {
          newRoot := InsertRecolor(parent, uncle, grand, root, s, steps);
        } else {
          newRoot := InsertRotateRightSide(cur, parent, grand, root, s, steps);
        }
      }
    }

    /**
     * Case 2 of __Insert_Adjust (the uncle is red): the parent and the uncle
     * turn black, the grandparent red, and the adjustment goes on from the
     * grandparent.
     */
    method InsertRecolor(parent: int, uncle: int, grand: int, root: int, ghost s: Shape, ghost steps: seq<Step>)
      returns (newRoot: int)
      requires Valid() && shape == Graft(s, steps) && root == Id(shape)
      requires s.Knot? && |steps| >= 2 && TopBlack(Frames(nodes, steps))
      requires steps[0].id == parent && steps[1].id == grand && Side(steps[1]).Knot? && Side(steps[1]).id == uncle
      modifies this
      ensures Valid() && newRoot == Id(shape) && |nodes| == old(|nodes|)
      ensures TopBlack(old(Frames(nodes, steps[2..])))
      ensures var pv := Wrap(old(Value(nodes, s)), old(FrameOf(nodes, steps[0])));
        var uv := old(Value(nodes, Side(steps[1])));
        var gv := old(At(nodes, grand).value);
        Abs() == RedBlackInsert.InsertFix(
          if steps[1].InLeft? then Node(Red, pv.(color := Black), gv, uv.(color := Black))
          else Node(Red, uv.(color := Black), gv, pv.(color := Black)),
          old(Frames(nodes, steps[2..])))
      decreases |steps|, 0
    {
      ghost var ns0 := nodes;
      View(nodes, s, steps);
      GraftTwo(nodes, s, steps);
      ghost var sg := Hang(Hang(s, steps[0]), steps[1]);
      View(nodes, sg, steps[2..]);
      LinksRange(nodes, sg, Up(steps[2..]));
      assert parent in Ids(sg) && uncle in Ids(sg);
      SetColor(parent, Black);
      SetColor(uncle, Black);
      SetColor(grand, Red);
      Case2Recolor(ns0, s, steps);
      assert TopBlack(Frames(ns0, steps[2..])) by {
        if steps[2..] != [] {
          assert Frames(ns0, steps)[|steps| - 1] == Frames(ns0, steps[2..])[|steps| - 3];
        }
      }
      newRoot := InsertAdjust(grand, root, sg, steps[2..]);
    }

    /**
     * Case 3 of __Insert_Adjust when the red parent is a left child and the
     * uncle is black: LeftRotate(parent) first if `cur` is a right child
     * (case 3.1), then the parent turns black, the grandparent red, and the
     * grandparent is rotated right (case 3.2).
     */
    method InsertRotateLeftSide(cur: int, parent: int, grand: int, root: int, ghost s: Shape, ghost steps: seq<Step>)
      returns (newRoot: int)
      requires Valid() && shape == Graft(s, steps) && root == Id(shape)
      requires s.Knot? && s.id == cur && |steps| >= 2
      requires steps[0].id == parent && steps[1].InLeft? && steps[1].id == grand
      requires At(nodes, parent).color == Red && IsBlack(Value(nodes, steps[1].right))
      modifies this
      ensures Valid() && newRoot == Id(shape) && |nodes| == old(|nodes|)
      ensures Abs() == Plug(RedBlackInsert.RotateUnderLeft(old(Value(nodes, s)), old(FrameOf(nodes, steps[0])),
                                                        old(At(nodes, grand).value), old(Value(nodes, steps[1].right))),
                            old(Frames(nodes, steps[2..])))
    {
      ghost var ns0 := nodes;
      View(nodes, s, steps);
      GraftTwo(nodes, s, steps);
      ghost var sp := Hang(s, steps[0]);
      ghost var U := steps[1].right;
      ghost var upper := steps[2..];
      assert steps[1..][0] == steps[1] && steps[1..][1..] == upper;
      HangValue(nodes, s, steps[0]);
      View(nodes, Knot(sp, grand, U), upper);
      GraftTop(Knot(sp, grand, U), upper);
      var p := parent;
      ghost var top := sp;
      ChildSide(nodes, cur, steps);
      if cur == nodes[parent].right {
        p := LeftRotate(parent, sp, steps[1..]);
        top := ShapeRotateLeft(sp);
        RotateShapeLeft(ns0, sp);
      }
      assert shape == Graft(Knot(top, grand, U), upper);
      assert Distinct(Knot(top, grand, U)) && Ids(Knot(top, grand, U)) !! StepsIds(upper) by {
        View(nodes, Knot(top, grand, U), upper);
      }
      ghost var ns1 := nodes;
      SetColor(p, Black);
      SetColor(grand, Red);
      var change := grand == root;
      Case3Paint(ns0, ns1, top, Knot(top, grand, U), upper);
      var g := RightRotate(grand, Knot(top, grand, U), upper);
      GraftTop(Knot(top, grand, U), upper);
      GraftTop(ShapeRotateRight(Knot(top, grand, U)), upper);
      newRoot := if change then g else root;
    }

    /** The mirror image of InsertRotateLeftSide: the red parent is a right child. */
    method InsertRotateRightSide(cur: int, parent: int, grand: int, root: int, ghost s: Shape, ghost steps: seq<Step>)
      returns (newRoot: int)
      requires Valid() && shape == Graft(s, steps) && root == Id(shape)
      requires s.Knot? && s.id == cur && |steps| >= 2
      requires steps[0].id == parent && steps[1].InRight? && steps[1].id == grand
      requires At(nodes, parent).color == Red && IsBlack(Value(nodes, steps[1].left))
      modifies this
      ensures Valid() && newRoot == Id(shape) && |nodes| == old(|nodes|)
      ensures Abs() == Plug(RedBlackInsert.RotateUnderRight(old(Value(nodes, steps[1].left)), old(At(nodes, grand).value),
                                                         old(Value(nodes, s)), old(FrameOf(nodes, steps[0]))),
                            old(Frames(nodes, steps[2..])))
    {
      ghost var ns0 := nodes;
      View(nodes, s, steps);
      GraftTwo(nodes, s, steps);
      ghost var sp := Hang(s, steps[0]);
      ghost var U := steps[1].left;
      ghost var upper := steps[2..];
      assert steps[1..][0] == steps[1] && steps[1..][1..] == upper;
      HangValue(nodes, s, steps[0]);
      View(nodes, Knot(U, grand, sp), upper);
      GraftTop(Knot(U, grand, sp), upper);
      var p := parent;
      ghost var top := sp;
      ChildSide(nodes, cur, steps);
      if cur == nodes[parent].left {
        p := RightRotate(parent, sp, steps[1..]);
        top := ShapeRotateRight(sp);
        RotateShapeRight(ns0, sp);
      }
      assert shape == Graft(Knot(U, grand, top), upper);
      assert Distinct(Knot(U, grand, top)) && Ids(Knot(U, grand, top)) !! StepsIds(upper) by {
        View(nodes, Knot(U, grand, top), upper);
      }
      ghost var ns1 := nodes;
      SetColor(p, Black);
      SetColor(grand, Red);
      var change := grand == root;
      Case3Paint(ns0, ns1, top, Knot(U, grand, top), upper);
      var g := LeftRotate(grand, Knot(U, grand, top), upper);
      GraftTop(Knot(U, grand, top), upper);
      GraftTop(ShapeRotateLeft(Knot(U, grand, top)), upper);
      newRoot := if change then g else root;
    }

    /**
     * Remove(root, value): search for the value; a node with two children
     * first trades its value with the minimum of its right subtree, and the
     * removal goes on at that node.  The node taken out is returned with its
     * pointers cleared; null is returned when the tree is empty or the value
     * is not found.
     */
    method Remove(root: int, value: int) returns (removed: int, newRoot: int)
      requires Valid() && root == Id(shape) && IsRedBlack(Abs())
      modifies this
      ensures Valid() && newRoot == Id(shape) && |nodes| == old(|nodes|)
      ensures Abs() == RedBlackRemove.Remove(old(Abs()), value).0
      ensures removed == Null <==> RedBlackRemove.Remove(old(Abs()), value).1.None?
      ensures removed != Null ==>
        && 0 <= removed < |nodes| && removed !in Ids(shape)
        && At(nodes, removed).parent == Null && At(nodes, removed).left == Null && At(nodes, removed).right == Null
        && RedBlackRemove.Remove(old(Abs()), value).1 ==
           Some(Node(At(nodes, removed).color, Leaf, At(nodes, removed).value, Leaf))
    {
      if root == Null {
        return Null, root;
      }
      ghost var t0 := Abs();
      var cur;
      ghost var s, steps;
      cur, s, steps := Search(root, value);
      if cur == Null {
        return Null, root;
      }
      ghost var xq := RedBlackRemove.SwapWithSuccessor(Value(nodes, s), Frames(nodes, steps));
      RedBlackRemove.SwapRedBlack(Value(nodes, s), Frames(nodes, steps));
      assert RedBlackRemove.Remove(t0, value) ==
        (RedBlackRemove.Unlink(xq.0, xq.1), Some(Node(xq.0.color, Leaf, xq.0.value, Leaf)));
      View(nodes, s, steps);
      BlackNodeValue(nodes, s.left, cur);
      BlackNodeValue(nodes, s.right, cur);
      if nodes[cur].left != Null && nodes[cur].right != Null {
        cur, s, steps := SwapSuccessor(cur, s, steps);
      }
      assert (Value(nodes, s), Frames(nodes, steps)) == xq;
      removed, newRoot := RemoveNode(cur, root, s, steps);
    }

    /**
     * The two-children case of Remove: find the minimum of the right
     * subtree, swap the two values, and go on at the minimum node.  No
     * pointer changes.
     */
    method SwapSuccessor(cur: int, ghost s: Shape, ghost steps: seq<Step>)
      returns (minNode: int, ghost m: Shape, ghost msteps: seq<Step>)
      requires Valid() && shape == Graft(s, steps)
      requires s.Knot? && s.id == cur && s.left.Knot? && s.right.Knot?
      modifies this
      ensures Valid() && shape == old(shape) && shape == Graft(m, msteps) && SamePointers(old(nodes), nodes)
      ensures m.Knot? && m.id == minNode && m.left.Empty?
      ensures old(Value(nodes, s)).Node?
      ensures (Value(nodes, m), Frames(nodes, msteps)) ==
        RedBlackRemove.SwapWithSuccessor(old(Value(nodes, s)), old(Frames(nodes, steps)))
    {
      ghost var ms;
      minNode, m, ms := Successor(cur, s, steps);
      View(nodes, s, steps);
      GraftAppend(m, ms, [InRight(s.left, cur)] + steps);
      var v := nodes[cur].value;
      SwapValues(nodes, s, steps, m, ms);
      SwapFrames(nodes, s, steps, m, ms);
      nodes := nodes[cur := nodes[cur].(value := nodes[minNode].value)];
      nodes := nodes[minNode := nodes[minNode].(value := v)];
      LinksPointers(old(nodes), nodes, shape, Null);
      msteps := ms + ([InRight(s.left, cur)] + steps);
    }

    /**
     * `minNode = cur->_right; while (minNode->_left) minNode = minNode->_left`:
     * the leftmost node of the right subtree, with its chain `ms` inside
     * that subtree.
     */
    method Successor(cur: int, ghost s: Shape, ghost steps: seq<Step>)
      returns (minNode: int, ghost m: Shape, ghost ms: seq<Step>)
      requires Valid() && shape == Graft(s, steps)
      requires s.Knot? && s.id == cur && s.right.Knot?
      ensures m.Knot? && m.id == minNode && m.left.Empty? && Graft(m, ms) == s.right && 0 <= minNode < |nodes|
      ensures RedBlackRemove.Leftmost(Value(nodes, s.right), []) == (Value(nodes, m), Frames(nodes, ms))
    {
      View(nodes, s, steps);
      minNode, m, ms := nodes[cur].right, s.right, [];
      while nodes[minNode].left != Null
        invariant m.Knot? && m.id == minNode && Graft(m, ms) == s.right
        invariant Links(nodes, m, Up(ms + [InRight(s.left, cur)]))
        invariant RedBlackRemove.Leftmost(Value(nodes, s.right), []) ==
                  RedBlackRemove.Leftmost(Value(nodes, m), Frames(nodes, ms))
        decreases m
      {
        assert Frames(nodes, [InLeft(minNode, m.right)] + ms) == [FrameOf(nodes, InLeft(minNode, m.right))] + Frames(nodes, ms);
        assert ([InLeft(minNode, m.right)] + ms)[1..] == ms;
        ms := [InLeft(minNode, m.right)] + ms;
        minNode, m := nodes[minNode].left, m.left;
      }
    }

    /**
     * The rest of Remove, at the node `cur` with at most one child: a black
     * node is adjusted with __Remove_Adjust first, then it is spliced out.
     */
    method RemoveNode(cur: int, root: int, ghost s: Shape, ghost steps: seq<Step>) returns (removed: int, newRoot: int)
      requires Valid() && shape == Graft(s, steps) && root == Id(shape)
      requires s.Knot? && s.id == cur && (s.left.Empty? || s.right.Empty?)
      requires IsRedBlack(Plug(Value(nodes, s), Frames(nodes, steps)))
      modifies this
      ensures Valid() && newRoot == Id(shape) && |nodes| == old(|nodes|) && removed == cur
      ensures 0 <= cur < |nodes| && cur !in Ids(shape)
      ensures At(nodes, cur) == old(At(nodes, cur)).(parent := Null, left := Null, right := Null)
      ensures Abs() == RedBlackRemove.Unlink(old(Value(nodes, s)), old(Frames(nodes, steps)))
    {
      ghost var x, q := Value(nodes, s), Frames(nodes, steps);
      View(nodes, s, steps);
      SplitRedBlack(x, q);
      ghost var steps' := steps;
      newRoot := root;
      if nodes[cur].color == Black {
        newRoot, steps' := RemoveAdjust(cur, root, s, steps, BlackHeight(x));
      }
      removed, newRoot := Splice(cur, newRoot, s, steps');
    }

    /**
     * Take out `cur`, which has at most one child: at the root the child (if
     * any) turns black and becomes the root; otherwise the parent's pointer
     * to `cur` and the child's parent pointer bypass `cur`.  Then `cur`'s
     * pointers are cleared.
     */
    method Splice(cur: int, root: int, ghost s: Shape, ghost steps: seq<Step>) returns (removed: int, newRoot: int)
      requires Valid() && shape == Graft(s, steps) && root == Id(shape)
      requires s.Knot? && s.id == cur && (s.left.Empty? || s.right.Empty?)
      modifies this
      ensures Valid() && newRoot == Id(shape) && |nodes| == old(|nodes|) && removed == cur
      ensures cur !in Ids(shape)
      ensures At(nodes, cur) == old(At(nodes, cur)).(parent := Null, left := Null, right := Null)
      ensures steps == [] && OnlyChild(s).Empty? ==> Abs() == Leaf
      ensures steps == [] && OnlyChild(s).Knot? ==>
        old(Value(nodes, OnlyChild(s))).Node? && Abs() == old(Value(nodes, OnlyChild(s))).(color := Black)
      ensures steps != [] ==> Abs() == Plug(old(Value(nodes, OnlyChild(s))), old(Frames(nodes, steps)))
    {
      View(nodes, s, steps);
      if nodes[cur].parent == Null {
        removed, newRoot := SpliceAtRoot(cur, s, steps);
      } else {
        removed, newRoot := SpliceBelow(cur, root, s, steps);
      }
    }

    /** Splice at the root: the child, if any, turns black and becomes the root. */
    method SpliceAtRoot(cur: int, ghost s: Shape, ghost steps: seq<Step>) returns (removed: int, newRoot: int)
      requires Valid() && shape == Graft(s, steps) && steps == []
      requires s.Knot? && s.id == cur && (s.left.Empty? || s.right.Empty?)
      modifies this
      ensures Valid() && newRoot == Id(shape) && |nodes| == old(|nodes|) && removed == cur
      ensures cur !in Ids(shape)
      ensures At(nodes, cur) == old(At(nodes, cur)).(parent := Null, left := Null, right := Null)
      ensures OnlyChild(s).Empty? ==> Abs() == Leaf
      ensures OnlyChild(s).Knot? ==>
        old(Value(nodes, OnlyChild(s))).Node? && Abs() == old(Value(nodes, OnlyChild(s))).(color := Black)
    {
      ghost var ns0 := nodes;
      assert shape == s;
      LinksRange(nodes, shape, Null);
      var that := if nodes[cur].left != Null then nodes[cur].left else nodes[cur].right;
      ghost var c := OnlyChild(s);
      assert that == Id(c) && cur !in Ids(c);
      assert c.Knot? ==> c.id in Ids(s);
      if that != Null {
        nodes := nodes[that := nodes[that].(color := Black)];
        nodes := nodes[that := nodes[that].(parent := Null)];
      }
      nodes := nodes[cur := nodes[cur].(left := Null)];
      nodes := nodes[cur := nodes[cur].(right := Null)];
      SpliceRoot(ns0, nodes, s);
      shape := c;
      return cur, that;
    }

    /** Splice below the root: the parent and the child bypass `cur`. */
    method SpliceBelow(cur: int, root: int, ghost s: Shape, ghost steps: seq<Step>) returns (removed: int, newRoot: int)
      requires Valid() && shape == Graft(s, steps) && root == Id(shape) && steps != []
      requires s.Knot? && s.id == cur && (s.left.Empty? || s.right.Empty?)
      modifies this
      ensures Valid() && newRoot == Id(shape) && |nodes| == old(|nodes|) && removed == cur
      ensures cur !in Ids(shape)
      ensures At(nodes, cur) == old(At(nodes, cur)).(parent := Null, left := Null, right := Null)
      ensures Abs() == Plug(old(Value(nodes, OnlyChild(s))), old(Frames(nodes, steps)))
    {
      ghost var ns0 := nodes;
      View(nodes, s, steps);
      LinksRange(nodes, shape, Null);
      var parent := nodes[cur].parent;
      var that := if nodes[cur].left != Null then nodes[cur].left else nodes[cur].right;
      ghost var c := OnlyChild(s);
      assert that == Id(c) && cur !in Ids(c) && parent in StepsIds(steps);
      Bypass(cur, parent, that);
      BypassedSpliced(ns0, s, steps);
      SpliceInner(ns0, nodes, s, steps);
      SpliceInnerValue(ns0, nodes, s, steps);
      shape := Graft(c, steps);
      return cur, root;
    }

    /**
     * The pointer assignments that take `cur` out below `parent`, in the
     * source's order: the parent's child pointer, the child's parent pointer,
     * then `cur`'s own three pointers.
     */
    method Bypass(cur: int, parent: int, that: int)
      requires 0 <= cur < |nodes| && 0 <= parent < |nodes| && (that == Null || 0 <= that < |nodes|)
      modifies this
      ensures nodes == Bypassed(old(nodes), cur, parent, that) && shape == old(shape)
    {
      nodes := nodes[parent := Retarget(nodes[parent], cur, that)];
      if that != Null {
        nodes := nodes[that := nodes[that].(parent := parent)];
      }
      nodes := nodes[cur := nodes[cur].(parent := Null)];
      nodes := nodes[cur := nodes[cur].(left := Null)];
      nodes := nodes[cur := nodes[cur].(right := Null)];
    }

    /**
     * __Remove_Adjust(cur, root) for the black node `cur`, which is about to
     * lose one black level.  At the root there is nothing to do; otherwise
     * the cases depend on the side `cur` hangs on and on the sibling.  The
     * node `cur` and everything below it keep their colours and values: the
     * chain above it is rebuilt, and the ghost result is its new shape.
     */
    method RemoveAdjust(cur: int, root: int, ghost s: Shape, ghost steps: seq<Step>, ghost h: nat)
      returns (newRoot: int, ghost steps': seq<Step>)
      requires Valid() && shape == Graft(s, steps) && root == Id(shape)
      requires s.Knot? && s.id == cur && At(nodes, cur).color == Black && h >= 1
      requires Fits(Frames(nodes, steps), h, Black)
      modifies this
      ensures Valid() && newRoot == Id(shape) && |nodes| == old(|nodes|) && shape == Graft(s, steps')
      ensures Value(nodes, s) == old(Value(nodes, s))
      ensures old(Value(nodes, s)).Node? && old(Value(nodes, s)).color == Black
      ensures Frames(nodes, steps') == RedBlackRemove.RemoveFix(old(Value(nodes, s)), old(Frames(nodes, steps)), h)
      decreases |steps| + 1, 4
    {
      View(nodes, s, steps);
      var parent := nodes[cur].parent;
      if parent == Null {
        return root, steps;
      }
      assert cur in Ids(s);
      ChildSide(nodes, cur, steps);
      ghost var f, upper := Value(nodes, s), Frames(nodes, steps[1..]);
      ghost var pc, pv := At(nodes, parent).color, At(nodes, parent).value;
      if cur == nodes[parent].left {
        var sib := nodes[parent].right;
        ghost var sv := Value(nodes, steps[0].right);
        BlackNodeValue(nodes, steps[0].right, parent);
        if !NodeIsBlack(nodes, sib) {
          newRoot, steps' := RemoveRedSiblingLeft(cur, parent, sib, root, s, steps, h);
        } else {
          RedBlackRemove.RemoveFixBlackLeft(f, pc, pv, sv, upper, h);
          newRoot, steps' := RemoveFixLeft(cur, parent, root, s, steps, h);
        }
      } else {
        var sib := nodes[parent].left;
        ghost var sv := Value(nodes, steps[0].left);
        BlackNodeValue(nodes, steps[0].left, parent);
        if !NodeIsBlack(nodes, sib) {
          newRoot, steps' := RemoveRedSiblingRight(cur, parent, sib, root, s, steps, h);
        } else {
          RedBlackRemove.RemoveFixBlackRight(sv, pc, pv, f, upper, h);
          newRoot, steps' := RemoveFixRight(cur, parent, root, s, steps, h);
        }
      }
    }

    /**
     * Case 1 of __Remove_Adjust, `cur` a left child: the parent turns red,
     * the red sibling black, the parent is rotated left, and the black-sibling
     * cases go on with the parent and sibling read again from `cur`.
     */
    method RemoveRedSiblingLeft(cur: int, parent: int, sib: int, root: int, ghost s: Shape, ghost steps: seq<Step>, ghost h: nat)
      returns (newRoot: int, ghost steps': seq<Step>)
      requires Valid() && shape == Graft(s, steps) && root == Id(shape)
      requires s.Knot? && s.id == cur && At(nodes, cur).color == Black && h >= 1
      requires steps != [] && steps[0].InLeft? && steps[0].id == parent
      requires steps[0].right.Knot? && steps[0].right.id == sib && At(nodes, sib).color == Red
      requires Fits(Frames(nodes, steps), h, Black)
      modifies this
      ensures Valid() && newRoot == Id(shape) && |nodes| == old(|nodes|) && shape == Graft(s, steps')
      ensures Value(nodes, s) == old(Value(nodes, s))
      ensures old(Value(nodes, s)).Node? && old(Value(nodes, s)).color == Black
      ensures Frames(nodes, steps') == RedBlackRemove.RemoveFix(old(Value(nodes, s)), old(Frames(nodes, steps)), h)
      decreases |steps| + 1, 3
    {
      ghost var S, U := steps[0].right, steps[1..];
      ghost var f, sv, upper := Value(nodes, s), Value(nodes, S), Frames(nodes, U);
      ghost var pv := At(nodes, parent).value;
      RedBlackRemove.RemoveFixRedLeft(f, At(nodes, parent).color, pv, sv, upper, h);
      View(nodes, s, steps);
      RedSiblingPaintLeft(nodes, s, steps);
      SetColor(parent, Red);
      SetColor(sib, Black);
      ghost var ns1 := nodes;
      var change := parent == root;
      GraftTop(Knot(s, parent, S), U);
      var top := LeftRotate(parent, Knot(s, parent, S), U);
      GraftTop(ShapeRotateLeft(Knot(s, parent, S)), U);
      newRoot := if change then top else root;
      ghost var nsteps := [InLeft(parent, S.left), InLeft(sib, S.right)] + U;
      GraftTwo(nodes, s, nsteps);
      TwoStepsTail(InLeft(parent, S.left), InLeft(sib, S.right), U);
      PayloadKept(ns1, nodes, s, nsteps);
      PayloadKept(ns1, nodes, S.left, nsteps[1..]);
      View(nodes, s, nsteps);
      var parent' := nodes[cur].parent;
      assert parent' == parent && At(nodes, parent).color == Red && At(nodes, parent).value == pv;
      assert Value(nodes, S.left) == sv.left && Frames(nodes, nsteps[1..]) == [LeftOf(Black, sv.value, sv.right)] + upper;
      newRoot, steps' := RemoveFixLeft(cur, parent', newRoot, s, nsteps, h);
    }

    /**
     * Cases 3, 2 and 4 of __Remove_Adjust, `cur` a left child with a black
     * sibling: case 3 turns a red near cousin into a red far cousin, case 2
     * then rotates the parent and ends, case 4 recolours the sibling and,
     * under a black parent, adjusts the parent in turn.
     */
    method RemoveFixLeft(cur: int, parent: int, root: int, ghost s: Shape, ghost steps: seq<Step>, ghost h: nat)
      returns (newRoot: int, ghost steps': seq<Step>)
      requires Valid() && shape == Graft(s, steps) && root == Id(shape)
      requires s.Knot? && s.id == cur && At(nodes, cur).color == Black && h >= 1
      requires steps != [] && steps[0].InLeft? && steps[0].id == parent
      requires Value(nodes, steps[0].right).Node? && Value(nodes, steps[0].right).color == Black
      requires At(nodes, parent).color == Black ==> Fits(Frames(nodes, steps[1..]), h + 1, Black)
      modifies this
      ensures Valid() && newRoot == Id(shape) && |nodes| == old(|nodes|) && shape == Graft(s, steps')
      ensures Value(nodes, s) == old(Value(nodes, s))
      ensures old(Value(nodes, s)).Node? && old(Value(nodes, s)).color == Black
      ensures Frames(nodes, steps') == RedBlackRemove.FixLeft(old(Value(nodes, s)), old(At(nodes, parent).color),
                old(At(nodes, parent).value), old(Value(nodes, steps[0].right)), old(Frames(nodes, steps[1..])), h)
      decreases |steps| + Weight(At(nodes, parent).color), 2
    {
      ghost var S, U := steps[0].right, steps[1..];
      ghost var f, sv, upper := Value(nodes, s), Value(nodes, S), Frames(nodes, U);
      ghost var pc, pv := At(nodes, parent).color, At(nodes, parent).value;
      RedBlackRemove.FixLeftCase3(f, pc, pv, sv, upper, h);
      View(nodes, s, steps);
      var sib := nodes[parent].right;
      ghost var S2;
      sib, S2 := RemoveCase3Left(parent, sib, s, steps);
      ghost var steps2 := [InLeft(parent, S2)] + U;
      assert steps2[1..] == U;
      assert RedBlackRemove.FixLeft(f, pc, pv, Value(nodes, S2), upper, h) == RedBlackRemove.FixLeft(f, pc, pv, sv, upper, h);
      View(nodes, s, steps2);
      BlackNodeValue(nodes, S2.right, sib);
      if !NodeIsBlack(nodes, nodes[sib].right) {
        newRoot, steps' := RemoveCase2Left(cur, parent, sib, root, s, steps2, h);
      } else {
        newRoot, steps' := RemoveCase4Left(cur, parent, sib, root, s, steps2, h);
      }
    }

    /**
     * Case 3 of __Remove_Adjust, `cur` a left child: when the far cousin is
     * black and the near one red, the near cousin turns black, the sibling
     * red, and the sibling is rotated right; its old left child is the new
     * sibling (the source rebinds `sib`).  Otherwise nothing changes.
     */
    method RemoveCase3Left(parent: int, sib: int, ghost s: Shape, ghost steps: seq<Step>) returns (sib': int, ghost S2: Shape)
      requires Valid() && shape == Graft(s, steps)
      requires s.Knot? && steps != [] && steps[0].InLeft? && steps[0].id == parent
      requires steps[0].right.Knot? && steps[0].right.id == sib
      modifies this
      ensures Valid() && |nodes| == old(|nodes|) && Id(shape) == old(Id(shape))
      ensures S2.Knot? && S2.id == sib' && shape == Graft(s, [InLeft(parent, S2)] + steps[1..])
      ensures Value(nodes, S2) == RedBlackRemove.Case3Left(old(Value(nodes, steps[0].right)))
      ensures Value(nodes, s) == old(Value(nodes, s)) && Frames(nodes, steps[1..]) == old(Frames(nodes, steps[1..]))
      ensures At(nodes, parent).color == old(At(nodes, parent).color) && At(nodes, parent).value == old(At(nodes, parent).value)
    {
      ghost var S := steps[0].right;
      View(nodes, s, steps);
      BlackNodeValue(nodes, S.left, sib);
      BlackNodeValue(nodes, S.right, sib);
      if NodeIsBlack(nodes, nodes[sib].right) && !NodeIsBlack(nodes, nodes[sib].left) {
        sib', S2 := RemoveCase3RotateLeft(parent, sib, s, steps);
      } else {
        sib', S2 := sib, S;
      }
    }

    /** Case 3, `cur` a left child, when it applies: the recolouring and the right rotation of the sibling. */
    method RemoveCase3RotateLeft(parent: int, sib: int, ghost s: Shape, ghost steps: seq<Step>) returns (sib': int, ghost S2: Shape)
      requires Valid() && shape == Graft(s, steps)
      requires s.Knot? && steps != [] && steps[0].InLeft? && steps[0].id == parent
      requires steps[0].right.Knot? && steps[0].right.id == sib
      requires IsBlack(Value(nodes, steps[0].right.right)) && IsRed(Value(nodes, steps[0].right.left))
      modifies this
      ensures Valid() && |nodes| == old(|nodes|) && Id(shape) == old(Id(shape))
      ensures S2.Knot? && S2.id == sib' && shape == Graft(s, [InLeft(parent, S2)] + steps[1..])
      ensures Value(nodes, S2) == RedBlackRemove.Case3Left(old(Value(nodes, steps[0].right)))
      ensures Value(nodes, s) == old(Value(nodes, s)) && Frames(nodes, steps[1..]) == old(Frames(nodes, steps[1..]))
      ensures At(nodes, parent).color == old(At(nodes, parent).color) && At(nodes, parent).value == old(At(nodes, parent).value)
    {
      ghost var S, U := steps[0].right, steps[1..];
      ghost var below := [InRight(s, parent)] + U;
      View(nodes, s, steps);
      Case3PaintLeft(nodes, s, steps);
      assert Graft(S, below) == shape;
      SetColor(nodes[sib].left, Black);
      SetColor(sib, Red);
      ghost var ns1 := nodes;
      GraftTop(S, below);
      sib' := RightRotate(sib, S, below);
      S2 := ShapeRotateRight(S);
      GraftTop(S2, below);
      RotateShapeRight(ns1, S);
      PayloadKept(ns1, nodes, S2, U);
      PayloadKept(ns1, nodes, s, U);
    }

    /**
     * Case 2 of __Remove_Adjust, `cur` a left child: the red far cousin turns
     * black, the sibling takes the parent's colour, the parent turns black
     * and is rotated left.
     */
    method RemoveCase2Left(cur: int, parent: int, sib: int, root: int, ghost s: Shape, ghost steps: seq<Step>, ghost h: nat)
      returns (newRoot: int, ghost steps': seq<Step>)
      requires Valid() && shape == Graft(s, steps) && root == Id(shape)
      requires s.Knot? && s.id == cur && At(nodes, cur).color == Black && h >= 1
      requires steps != [] && steps[0].InLeft? && steps[0].id == parent
      requires steps[0].right.Knot? && steps[0].right.id == sib
      requires Value(nodes, steps[0].right).color == Black && IsRed(Value(nodes, steps[0].right.right))
      requires At(nodes, parent).color == Black ==> Fits(Frames(nodes, steps[1..]), h + 1, Black)
      modifies this
      ensures Valid() && newRoot == Id(shape) && |nodes| == old(|nodes|) && shape == Graft(s, steps')
      ensures Value(nodes, s) == old(Value(nodes, s))
      ensures old(Value(nodes, s)).Node? && old(Value(nodes, s)).color == Black
      ensures Frames(nodes, steps') == RedBlackRemove.FixLeft(old(Value(nodes, s)), old(At(nodes, parent).color),
                old(At(nodes, parent).value), old(Value(nodes, steps[0].right)), old(Frames(nodes, steps[1..])), h)
    {
      ghost var S, U := steps[0].right, steps[1..];
      ghost var f, sv, upper := Value(nodes, s), Value(nodes, S), Frames(nodes, U);
      ghost var pc, pv := At(nodes, parent).color, At(nodes, parent).value;
      RedBlackRemove.FixLeftCase2(f, pc, pv, sv, upper, h);
      ghost var ns0 := nodes;
      View(nodes, s, steps);
      Case2PaintLeft(nodes, s, steps);
      assert nodes[sib].right == S.right.id;
      SetColor(nodes[sib].right, Black);
      SetColor(sib, nodes[parent].color);
      SetColor(parent, Black);
      ghost var ns1 := nodes;
      assert ns1 == Paint(Paint(Paint(ns0, S.right.id, Black), sib, pc), parent, Black);
      var change := parent == root;
      GraftTop(Knot(s, parent, S), U);
      var top := LeftRotate(parent, Knot(s, parent, S), U);
      GraftTop(ShapeRotateLeft(Knot(s, parent, S)), U);
      newRoot := if change then top else root;
      steps' := [InLeft(parent, S.left), InLeft(sib, S.right)] + U;
      TwoStepsTail(InLeft(parent, S.left), InLeft(sib, S.right), U);
      GraftTwo(nodes, s, steps');
      PayloadKept(ns1, nodes, s, steps');
      assert Frames(nodes, steps') == [LeftOf(Black, pv, sv.left), LeftOf(pc, sv.value, sv.right.(color := Black))] + upper;
    }

    /**
     * Case 4 of __Remove_Adjust, `cur` a left child whose black sibling has
     * two black children: the sibling turns red; a red parent turns black
     * (case 4.1), a black one is adjusted in turn (case 4.2).
     */
    method RemoveCase4Left(cur: int, parent: int, sib: int, root: int, ghost s: Shape, ghost steps: seq<Step>, ghost h: nat)
      returns (newRoot: int, ghost steps': seq<Step>)
      requires Valid() && shape == Graft(s, steps) && root == Id(shape)
      requires s.Knot? && s.id == cur && At(nodes, cur).color == Black && h >= 1
      requires steps != [] && steps[0].InLeft? && steps[0].id == parent
      requires steps[0].right.Knot? && steps[0].right.id == sib
      requires Value(nodes, steps[0].right).color == Black
      requires IsBlack(Value(nodes, steps[0].right.right)) && IsBlack(Value(nodes, steps[0].right.left))
      requires At(nodes, parent).color == Black ==> Fits(Frames(nodes, steps[1..]), h + 1, Black)
      modifies this
      ensures Valid() && newRoot == Id(shape) && |nodes| == old(|nodes|) && shape == Graft(s, steps')
      ensures Value(nodes, s) == old(Value(nodes, s))
      ensures old(Value(nodes, s)).Node? && old(Value(nodes, s)).color == Black
      ensures Frames(nodes, steps') == RedBlackRemove.FixLeft(old(Value(nodes, s)), old(At(nodes, parent).color),
                old(At(nodes, parent).value), old(Value(nodes, steps[0].right)), old(Frames(nodes, steps[1..])), h)
      decreases |steps| + Weight(At(nodes, parent).color), 1
    {
      ghost var S, U := steps[0].right, steps[1..];
      ghost var f, sv, upper := Value(nodes, s), Value(nodes, S), Frames(nodes, U);
      ghost var pc, pv := At(nodes, parent).color, At(nodes, parent).value;
      View(nodes, s, steps);
      if !NodeIsBlack(nodes, parent) {
        Case4RecolorLeft(nodes, s, steps);
        SetColor(sib, Red);
        SetColor(parent, Black);
        newRoot, steps' := root, steps;
        RedBlackRemove.FixLeftRecolor(f, pv, sv, upper, h);
      } else {
        newRoot, steps' := RemoveCase4UpLeft(cur, parent, sib, root, s, steps, h);
      }
    }

    /**
     * Case 4.2 of __Remove_Adjust, `cur` a left child: the black sibling
     * with two black children turns red under a black parent, and the
     * adjustment goes on from the parent (the source's `cur = parent`).
     */
    method RemoveCase4UpLeft(cur: int, parent: int, sib: int, root: int, ghost s: Shape, ghost steps: seq<Step>, ghost h: nat)
      returns (newRoot: int, ghost steps': seq<Step>)
      requires Valid() && shape == Graft(s, steps) && root == Id(shape)
      requires s.Knot? && s.id == cur && At(nodes, cur).color == Black && h >= 1
      requires steps != [] && steps[0].InLeft? && steps[0].id == parent
      requires steps[0].right.Knot? && steps[0].right.id == sib
      requires Value(nodes, steps[0].right).color == Black
      requires IsBlack(Value(nodes, steps[0].right.right)) && IsBlack(Value(nodes, steps[0].right.left))
      requires At(nodes, parent).color == Black && Fits(Frames(nodes, steps[1..]), h + 1, Black)
      modifies this
      ensures Valid() && newRoot == Id(shape) && |nodes| == old(|nodes|) && shape == Graft(s, steps')
      ensures Value(nodes, s) == old(Value(nodes, s))
      ensures old(Value(nodes, s)).Node? && old(Value(nodes, s)).color == Black
      ensures Frames(nodes, steps') == RedBlackRemove.FixLeft(old(Value(nodes, s)), old(At(nodes, parent).color),
                old(At(nodes, parent).value), old(Value(nodes, steps[0].right)), old(Frames(nodes, steps[1..])), h)
      decreases |steps| + 1, 0
    {
      ghost var S, U := steps[0].right, steps[1..];
      ghost var f, sv, upper := Value(nodes, s), Value(nodes, S), Frames(nodes, U);
      ghost var pv := At(nodes, parent).value;
      RedBlackRemove.FixLeftPushUp(f, pv, sv, upper, h);
      View(nodes, s, steps);
      Case4PaintLeft(nodes, s, steps);
      SetColor(sib, Red);
      ghost var up;
      newRoot, up := RemoveAdjust(parent, root, Knot(s, parent, S), U, h + 1);
      steps' := [InLeft(parent, S)] + up;
      assert steps'[1..] == up;
    }

    /** Case 1 of __Remove_Adjust, `cur` a right child: the mirror image, rotating right. */
    method RemoveRedSiblingRight(cur: int, parent: int, sib: int, root: int, ghost s: Shape, ghost steps: seq<Step>, ghost h: nat)
      returns (newRoot: int, ghost steps': seq<Step>)
      requires Valid() && shape == Graft(s, steps) && root == Id(shape)
      requires s.Knot? && s.id == cur && At(nodes, cur).color == Black && h >= 1
      requires steps != [] && steps[0].InRight? && steps[0].id == parent
      requires steps[0].left.Knot? && steps[0].left.id == sib && At(nodes, sib).color == Red
      requires Fits(Frames(nodes, steps), h, Black)
      modifies this
      ensures Valid() && newRoot == Id(shape) && |nodes| == old(|nodes|) && shape == Graft(s, steps')
      ensures Value(nodes, s) == old(Value(nodes, s))
      ensures old(Value(nodes, s)).Node? && old(Value(nodes, s)).color == Black
      ensures Frames(nodes, steps') == RedBlackRemove.RemoveFix(old(Value(nodes, s)), old(Frames(nodes, steps)), h)
      decreases |steps| + 1, 3
    {
      ghost var S, U := steps[0].left, steps[1..];
      ghost var f, sv, upper := Value(nodes, s), Value(nodes, S), Frames(nodes, U);
      ghost var pv := At(nodes, parent).value;
      RedBlackRemove.RemoveFixRedRight(sv, At(nodes, parent).color, pv, f, upper, h);
      View(nodes, s, steps);
      RedSiblingPaintRight(nodes, s, steps);
      SetColor(parent, Red);
      SetColor(sib, Black);
      ghost var ns1 := nodes;
      var change := parent == root;
      GraftTop(Knot(S, parent, s), U);
      var top := RightRotate(parent, Knot(S, parent, s), U);
      GraftTop(ShapeRotateRight(Knot(S, parent, s)), U);
      newRoot := if change then top else root;
      ghost var nsteps := [InRight(S.right, parent), InRight(S.left, sib)] + U;
      GraftTwo(nodes, s, nsteps);
      TwoStepsTail(InRight(S.right, parent), InRight(S.left, sib), U);
      PayloadKept(ns1, nodes, s, nsteps);
      PayloadKept(ns1, nodes, S.right, nsteps[1..]);
      View(nodes, s, nsteps);
      var parent' := nodes[cur].parent;
      assert parent' == parent && At(nodes, parent).color == Red && At(nodes, parent).value == pv;
      assert Value(nodes, S.right) == sv.right && Frames(nodes, nsteps[1..]) == [RightOf(sv.left, Black, sv.value)] + upper;
      newRoot, steps' := RemoveFixRight(cur, parent', newRoot, s, nsteps, h);
    }

    /** Cases 3, 2 and 4 of __Remove_Adjust, `cur` a right child: the mirror image of RemoveFixLeft. */
    method RemoveFixRight(cur: int, parent: int, root: int, ghost s: Shape, ghost steps: seq<Step>, ghost h: nat)
      returns (newRoot: int, ghost steps': seq<Step>)
      requires Valid() && shape == Graft(s, steps) && root == Id(shape)
      requires s.Knot? && s.id == cur && At(nodes, cur).color == Black && h >= 1
      requires steps != [] && steps[0].InRight? && steps[0].id == parent
      requires Value(nodes, steps[0].left).Node? && Value(nodes, steps[0].left).color == Black
      requires At(nodes, parent).color == Black ==> Fits(Frames(nodes, steps[1..]), h + 1, Black)
      modifies this
      ensures Valid() && newRoot == Id(shape) && |nodes| == old(|nodes|) && shape == Graft(s, steps')
      ensures Value(nodes, s) == old(Value(nodes, s))
      ensures old(Value(nodes, s)).Node? && old(Value(nodes, s)).color == Black
      ensures Frames(nodes, steps') == RedBlackRemove.FixRight(old(Value(nodes, steps[0].left)), old(At(nodes, parent).color),
                old(At(nodes, parent).value), old(Value(nodes, s)), old(Frames(nodes, steps[1..])), h)
      decreases |steps| + Weight(At(nodes, parent).color), 2
    {
      ghost var S, U := steps[0].left, steps[1..];
      ghost var f, sv, upper := Value(nodes, s), Value(nodes, S), Frames(nodes, U);
      ghost var pc, pv := At(nodes, parent).color, At(nodes, parent).value;
      RedBlackRemove.FixRightCase3(sv, pc, pv, f, upper, h);
      View(nodes, s, steps);
      var sib := nodes[parent].left;
      ghost var S2;
      sib, S2 := RemoveCase3Right(parent, sib, s, steps);
      ghost var steps2 := [InRight(S2, parent)] + U;
      assert steps2[1..] == U;
      assert RedBlackRemove.FixRight(Value(nodes, S2), pc, pv, f, upper, h) == RedBlackRemove.FixRight(sv, pc, pv, f, upper, h);
      View(nodes, s, steps2);
      BlackNodeValue(nodes, S2.left, sib);
      if !NodeIsBlack(nodes, nodes[sib].left) {
        newRoot, steps' := RemoveCase2Right(cur, parent, sib, root, s, steps2, h);
      } else {
        newRoot, steps' := RemoveCase4Right(cur, parent, sib, root, s, steps2, h);
      }
    }

    /** Case 3 of __Remove_Adjust, `cur` a right child: the mirror image, rotating the sibling left when it applies. */
    method RemoveCase3Right(parent: int, sib: int, ghost s: Shape, ghost steps: seq<Step>) returns (sib': int, ghost S2: Shape)
      requires Valid() && shape == Graft(s, steps)
      requires s.Knot? && steps != [] && steps[0].InRight? && steps[0].id == parent
      requires steps[0].left.Knot? && steps[0].left.id == sib
      modifies this
      ensures Valid() && |nodes| == old(|nodes|) && Id(shape) == old(Id(shape))
      ensures S2.Knot? && S2.id == sib' && shape == Graft(s, [InRight(S2, parent)] + steps[1..])
      ensures Value(nodes, S2) == RedBlackRemove.Case3Right(old(Value(nodes, steps[0].left)))
      ensures Value(nodes, s) == old(Value(nodes, s)) && Frames(nodes, steps[1..]) == old(Frames(nodes, steps[1..]))
      ensures At(nodes, parent).color == old(At(nodes, parent).color) && At(nodes, parent).value == old(At(nodes, parent).value)
    {
      ghost var S := steps[0].left;
      View(nodes, s, steps);
      BlackNodeValue(nodes, S.left, sib);
      BlackNodeValue(nodes, S.right, sib);
      if NodeIsBlack(nodes, nodes[sib].left) && !NodeIsBlack(nodes, nodes[sib].right) {
        sib', S2 := RemoveCase3RotateRight(parent, sib, s, steps);
      } else {
        sib', S2 := sib, S;
      }
    }

    /** Case 3, `cur` a right child, when it applies: the recolouring and the left rotation of the sibling. */
    method RemoveCase3RotateRight(parent: int, sib: int, ghost s: Shape, ghost steps: seq<Step>) returns (sib': int, ghost S2: Shape)
      requires Valid() && shape == Graft(s, steps)
      requires s.Knot? && steps != [] && steps[0].InRight? && steps[0].id == parent
      requires steps[0].left.Knot? && steps[0].left.id == sib
      requires IsBlack(Value(nodes, steps[0].left.left)) && IsRed(Value(nodes, steps[0].left.right))
      modifies this
      ensures Valid() && |nodes| == old(|nodes|) && Id(shape) == old(Id(shape))
      ensures S2.Knot? && S2.id == sib' && shape == Graft(s, [InRight(S2, parent)] + steps[1..])
      ensures Value(nodes, S2) == RedBlackRemove.Case3Right(old(Value(nodes, steps[0].left)))
      ensures Value(nodes, s) == old(Value(nodes, s)) && Frames(nodes, steps[1..]) == old(Frames(nodes, steps[1..]))
      ensures At(nodes, parent).color == old(At(nodes, parent).color) && At(nodes, parent).value == old(At(nodes, parent).value)
    {
      ghost var S, U := steps[0].left, steps[1..];
      ghost var below := [InLeft(parent, s)] + U;
      View(nodes, s, steps);
      Case3PaintRight(nodes, s, steps);
      assert Graft(S, below) == shape;
      SetColor(nodes[sib].right, Black);
      SetColor(sib, Red);
      ghost var ns1 := nodes;
      GraftTop(S, below);
      sib' := LeftRotate(sib, S, below);
      S2 := ShapeRotateLeft(S);
      GraftTop(S2, below);
      RotateShapeLeft(ns1, S);
      PayloadKept(ns1, nodes, S2, U);
      PayloadKept(ns1, nodes, s, U);
    }

    /** Case 2 of __Remove_Adjust, `cur` a right child: the mirror image, rotating the parent right. */
    method RemoveCase2Right(cur: int, parent: int, sib: int, root: int, ghost s: Shape, ghost steps: seq<Step>, ghost h: nat)
      returns (newRoot: int, ghost steps': seq<Step>)
      requires Valid() && shape == Graft(s, steps) && root == Id(shape)
      requires s.Knot? && s.id == cur && At(nodes, cur).color == Black && h >= 1
      requires steps != [] && steps[0].InRight? && steps[0].id == parent
      requires steps[0].left.Knot? && steps[0].left.id == sib
      requires Value(nodes, steps[0].left).color == Black && IsRed(Value(nodes, steps[0].left.left))
      requires At(nodes, parent).color == Black ==> Fits(Frames(nodes, steps[1..]), h + 1, Black)
      modifies this
      ensures Valid() && newRoot == Id(shape) && |nodes| == old(|nodes|) && shape == Graft(s, steps')
      ensures Value(nodes, s) == old(Value(nodes, s))
      ensures old(Value(nodes, s)).Node? && old(Value(nodes, s)).color == Black
      ensures Frames(nodes, steps') == RedBlackRemove.FixRight(old(Value(nodes, steps[0].left)), old(At(nodes, parent).color),
                old(At(nodes, parent).value), old(Value(nodes, s)), old(Frames(nodes, steps[1..])), h)
    {
      ghost var S, U := steps[0].left, steps[1..];
      ghost var f, sv, upper := Value(nodes, s), Value(nodes, S), Frames(nodes, U);
      ghost var pc, pv := At(nodes, parent).color, At(nodes, parent).value;
      RedBlackRemove.FixRightCase2(sv, pc, pv, f, upper, h);
      ghost var ns0 := nodes;
      View(nodes, s, steps);
      Case2PaintRight(nodes, s, steps);
      assert nodes[sib].left == S.left.id;
      SetColor(nodes[sib].left, Black);
      SetColor(sib, nodes[parent].color);
      SetColor(parent, Black);
      ghost var ns1 := nodes;
      assert ns1 == Paint(Paint(Paint(ns0, S.left.id, Black), sib, pc), parent, Black);
      var change := parent == root;
      GraftTop(Knot(S, parent, s), U);
      var top := RightRotate(parent, Knot(S, parent, s), U);
      GraftTop(ShapeRotateRight(Knot(S, parent, s)), U);
      newRoot := if change then top else root;
      steps' := [InRight(S.right, parent), InRight(S.left, sib)] + U;
      TwoStepsTail(InRight(S.right, parent), InRight(S.left, sib), U);
      GraftTwo(nodes, s, steps');
      PayloadKept(ns1, nodes, s, steps');
      assert Frames(nodes, steps') == [RightOf(sv.right, Black, pv), RightOf(sv.left.(color := Black), pc, sv.value)] + upper;
    }

    /** Case 4 of __Remove_Adjust, `cur` a right child: the mirror image of RemoveCase4Left. */
    method RemoveCase4Right(cur: int, parent: int, sib: int, root: int, ghost s: Shape, ghost steps: seq<Step>, ghost h: nat)
      returns (newRoot: int, ghost steps': seq<Step>)
      requires Valid() && shape == Graft(s, steps) && root == Id(shape)
      requires s.Knot? && s.id == cur && At(nodes, cur).color == Black && h >= 1
      requires steps != [] && steps[0].InRight? && steps[0].id == parent
      requires steps[0].left.Knot? && steps[0].left.id == sib
      requires Value(nodes, steps[0].left).color == Black
      requires IsBlack(Value(nodes, steps[0].left.left)) && IsBlack(Value(nodes, steps[0].left.right))
      requires At(nodes, parent).color == Black ==> Fits(Frames(nodes, steps[1..]), h + 1, Black)
      modifies this
      ensures Valid() && newRoot == Id(shape) && |nodes| == old(|nodes|) && shape == Graft(s, steps')
      ensures Value(nodes, s) == old(Value(nodes, s))
      ensures old(Value(nodes, s)).Node? && old(Value(nodes, s)).color == Black
      ensures Frames(nodes, steps') == RedBlackRemove.FixRight(old(Value(nodes, steps[0].left)), old(At(nodes, parent).color),
                old(At(nodes, parent).value), old(Value(nodes, s)), old(Frames(nodes, steps[1..])), h)
      decreases |steps| + Weight(At(nodes, parent).color), 1
    {
      ghost var S, U := steps[0].left, steps[1..];
      ghost var f, sv, upper := Value(nodes, s), Value(nodes, S), Frames(nodes, U);
      ghost var pc, pv := At(nodes, parent).color, At(nodes, parent).value;
      View(nodes, s, steps);
      if !NodeIsBlack(nodes, parent) {
        Case4RecolorRight(nodes, s, steps);
        SetColor(sib, Red);
        SetColor(parent, Black);
        newRoot, steps' := root, steps;
        RedBlackRemove.FixRightRecolor(sv, pv, f, upper, h);
      } else {
        newRoot, steps' := RemoveCase4UpRight(cur, parent, sib, root, s, steps, h);
      }
    }

    /** Case 4.2 of __Remove_Adjust, `cur` a right child: the mirror image of RemoveCase4UpLeft. */
    method RemoveCase4UpRight(cur: int, parent: int, sib: int, root: int, ghost s: Shape, ghost steps: seq<Step>, ghost h: nat)
      returns (newRoot: int, ghost steps': seq<Step>)
      requires Valid() && shape == Graft(s, steps) && root == Id(shape)
      requires s.Knot? && s.id == cur && At(nodes, cur).color == Black && h >= 1
      requires steps != [] && steps[0].InRight? && steps[0].id == parent
      requires steps[0].left.Knot? && steps[0].left.id == sib
      requires Value(nodes, steps[0].left).color == Black
      requires IsBlack(Value(nodes, steps[0].left.left)) && IsBlack(Value(nodes, steps[0].left.right))
      requires At(nodes, parent).color == Black && Fits(Frames(nodes, steps[1..]), h + 1, Black)
      modifies this
      ensures Valid() && newRoot == Id(shape) && |nodes| == old(|nodes|) && shape == Graft(s, steps')
      ensures Value(nodes, s) == old(Value(nodes, s))
      ensures old(Value(nodes, s)).Node? && old(Value(nodes, s)).color == Black
      ensures Frames(nodes, steps') == RedBlackRemove.FixRight(old(Value(nodes, steps[0].left)), old(At(nodes, parent).color),
                old(At(nodes, parent).value), old(Value(nodes, s)), old(Frames(nodes, steps[1..])), h)
      decreases |steps| + 1, 0
    {
      ghost var S, U := steps[0].left, steps[1..];
      ghost var f, sv, upper := Value(nodes, s), Value(nodes, S), Frames(nodes, U);
      ghost var pv := At(nodes, parent).value;
      RedBlackRemove.FixRightPushUp(sv, pv, f, upper, h);
      View(nodes, s, steps);
      Case4PaintRight(nodes, s, steps);
      SetColor(sib, Red);
      ghost var up;
      newRoot, up := RemoveAdjust(parent, root, Knot(S, parent, s), U, h + 1);
      steps' := [InRight(S, parent)] + up;
      assert steps'[1..] == up;
    }
  }

  /**
   * Case 2 of __Insert_Adjust: the parent and the uncle turn black and the
   * grandparent red; the grandparent's subtree is the red node that the
   * adjustment continues from, and everything above is unchanged.
   */
  lemma Case2Recolor(ns: seq<RBNode>, s: Shape, steps: seq<Step>)
    requires Links(ns, Graft(s, steps), Null) && Distinct(Graft(s, steps))
    requires s.Knot? && |steps| >= 2 && Side(steps[1]).Knot?
    ensures var parent, uncle, grand := steps[0].id, Side(steps[1]).id, steps[1].id;
      var ns' := Paint(Paint(Paint(ns, parent, Black), uncle, Black), grand, Red);
      var pv := Wrap(Value(ns, s), FrameOf(ns, steps[0]));
      var uv := Value(ns, Side(steps[1]));
      && Value(ns', Hang(Hang(s, steps[0]), steps[1])) ==
         (if steps[1].InLeft? then Node(Red, pv.(color := Black), At(ns, grand).value, uv.(color := Black))
          else Node(Red, uv.(color := Black), At(ns, grand).value, pv.(color := Black)))
      && Frames(ns', steps[2..]) == Frames(ns, steps[2..])
  {
    var parent, uncle, grand := steps[0].id, Side(steps[1]).id, steps[1].id;
    var sp := Hang(s, steps[0]);
    var U := Side(steps[1]);
    var sg := Hang(sp, steps[1]);
    GraftTwo(ns, s, steps);
    View(ns, sg, steps[2..]);
    LinksRange(ns, sg, Up(steps[2..]));
    HangValue(ns, s, steps[0]);
    assert parent in Ids(sp) && uncle in Ids(U) && Ids(sp) !! Ids(U);
    var ns1 := Paint(ns, parent, Black);
    var ns2 := Paint(ns1, uncle, Black);
    var ns3 := Paint(ns2, grand, Red);
    var pv := Wrap(Value(ns, s), FrameOf(ns, steps[0]));
    var uv := Value(ns, U);
    assert Value(ns2, sp) == pv.(color := Black) by {
      PaintValue(ns, parent, Black, sp);
      PaintValue(ns1, uncle, Black, sp);
    }
    assert Value(ns2, U) == uv.(color := Black) by {
      PaintValue(ns, parent, Black, U);
      PaintValue(ns1, uncle, Black, U);
    }
    assert At(ns2, grand).value == At(ns, grand).value;
    PaintValue(ns2, grand, Red, sg);
    assert Frames(ns3, steps[2..]) == Frames(ns, steps[2..]) by {
      PaintFrames(ns, parent, Black, steps[2..]);
      PaintFrames(ns1, uncle, Black, steps[2..]);
      PaintFrames(ns2, grand, Red, steps[2..]);
    }
  }

  /**
   * Case 3.2 of __Insert_Adjust before its rotation: `top` (the red parent,
   * or after case 3.1 the old `cur`) turns black and the grandparent `g`
   * red; nothing above the grandparent changes.
   */
  lemma Case3Paint(ns0: seq<RBNode>, ns1: seq<RBNode>, top: Shape, g: Shape, upper: seq<Step>)
    requires SamePayload(ns0, ns1)
    requires g.Knot? && top.Knot? && (g.left == top || g.right == top)
    requires Distinct(g) && Ids(g) !! StepsIds(upper)
    requires 0 <= top.id < |ns0| && 0 <= g.id < |ns0|
    ensures var ns2 := Paint(Paint(ns1, top.id, Black), g.id, Red);
      && Value(ns2, g) ==
         (if g.left == top then Node(Red, Value(ns0, top).(color := Black), At(ns0, g.id).value, Value(ns0, g.right))
          else Node(Red, Value(ns0, g.left), At(ns0, g.id).value, Value(ns0, top).(color := Black)))
      && Frames(ns2, upper) == Frames(ns0, upper)
  {
    var ns2 := Paint(ns1, top.id, Black);
    PayloadKept(ns0, ns1, g, upper);
    PayloadKept(ns0, ns1, top, upper);
    PayloadKept(ns0, ns1, g.left, upper);
    PayloadKept(ns0, ns1, g.right, upper);
    assert top.id in Ids(top);
    PaintValue(ns1, top.id, Black, g.left);
    PaintValue(ns1, top.id, Black, g.right);
    PaintValue(ns2, g.id, Red, g);
    PaintFrames(ns1, top.id, Black, upper);
    PaintFrames(ns2, g.id, Red, upper);
  }

  /**
   * Case 1 of __Remove_Adjust, `cur` a left child, before its rotation: the
   * parent turns red and the red sibling black.
   */
  lemma RedSiblingPaintLeft(ns: seq<RBNode>, s: Shape, steps: seq<Step>)
    requires Links(ns, Graft(s, steps), Null) && Distinct(Graft(s, steps))
    requires s.Knot? && steps != [] && steps[0].InLeft? && steps[0].right.Knot?
    ensures var parent, S := steps[0].id, steps[0].right;
      var ns' := Paint(Paint(ns, parent, Red), S.id, Black);
      var sv := Value(ns, S);
      && Value(ns', s) == Value(ns, s) && Value(ns', S.left) == sv.left
      && At(ns', parent).color == Red && At(ns', parent).value == At(ns, parent).value
      && Frames(ns', [InLeft(S.id, S.right)] + steps[1..]) == [LeftOf(Black, sv.value, sv.right)] + Frames(ns, steps[1..])
  {
    var parent, S, U := steps[0].id, steps[0].right, steps[1..];
    View(ns, s, steps);
    assert S.id in Ids(S);
    var ns1 := Paint(ns, parent, Red);
    PaintValue(ns, parent, Red, s);
    PaintValue(ns, parent, Red, S);
    PaintFrames(ns, parent, Red, U);
    PaintValue(ns1, S.id, Black, s);
    PaintValue(ns1, S.id, Black, S.left);
    PaintValue(ns1, S.id, Black, S.right);
    PaintFrames(ns1, S.id, Black, U);
  }

  /** Case 1, `cur` a right child: the mirror image. */
  lemma RedSiblingPaintRight(ns: seq<RBNode>, s: Shape, steps: seq<Step>)
    requires Links(ns, Graft(s, steps), Null) && Distinct(Graft(s, steps))
    requires s.Knot? && steps != [] && steps[0].InRight? && steps[0].left.Knot?
    ensures var parent, S := steps[0].id, steps[0].left;
      var ns' := Paint(Paint(ns, parent, Red), S.id, Black);
      var sv := Value(ns, S);
      && Value(ns', s) == Value(ns, s) && Value(ns', S.right) == sv.right
      && At(ns', parent).color == Red && At(ns', parent).value == At(ns, parent).value
      && Frames(ns', [InRight(S.left, S.id)] + steps[1..]) == [RightOf(sv.left, Black, sv.value)] + Frames(ns, steps[1..])
  {
    var parent, S, U := steps[0].id, steps[0].left, steps[1..];
    View(ns, s, steps);
    assert S.id in Ids(S);
    var ns1 := Paint(ns, parent, Red);
    PaintValue(ns, parent, Red, s);
    PaintValue(ns, parent, Red, S);
    PaintFrames(ns, parent, Red, U);
    PaintValue(ns1, S.id, Black, s);
    PaintValue(ns1, S.id, Black, S.left);
    PaintValue(ns1, S.id, Black, S.right);
    PaintFrames(ns1, S.id, Black, U);
  }

  /**
   * Case 3, `cur` a left child, before its rotation: the sibling's left
   * child turns black and the sibling red.
   */
  lemma Case3PaintLeft(ns: seq<RBNode>, s: Shape, steps: seq<Step>)
    requires Links(ns, Graft(s, steps), Null) && Distinct(Graft(s, steps))
    requires s.Knot? && steps != [] && steps[0].InLeft? && steps[0].right.Knot? && steps[0].right.left.Knot?
    ensures var parent, S := steps[0].id, steps[0].right;
      var ns' := Paint(Paint(ns, S.left.id, Black), S.id, Red);
      var sv := Value(ns, S);
      && Value(ns', S) == Node(Red, sv.left.(color := Black), sv.value, sv.right)
      && Value(ns', s) == Value(ns, s)
      && At(ns', parent).color == At(ns, parent).color && At(ns', parent).value == At(ns, parent).value
      && Frames(ns', steps[1..]) == Frames(ns, steps[1..])
  {
    var parent, S, U := steps[0].id, steps[0].right, steps[1..];
    View(ns, s, steps);
    LinksRange(ns, S, parent);
    assert S.id in Ids(S) && S.left.id in Ids(S.left);
    var ns1 := Paint(ns, S.left.id, Black);
    PaintValue(ns, S.left.id, Black, s);
    PaintValue(ns, S.left.id, Black, S.left);
    PaintValue(ns, S.left.id, Black, S.right);
    PaintFrames(ns, S.left.id, Black, U);
    PaintValue(ns1, S.id, Red, s);
    PaintValue(ns1, S.id, Red, S);
    PaintFrames(ns1, S.id, Red, U);
  }

  /** Case 3, `cur` a right child: the mirror image. */
  lemma Case3PaintRight(ns: seq<RBNode>, s: Shape, steps: seq<Step>)
    requires Links(ns, Graft(s, steps), Null) && Distinct(Graft(s, steps))
    requires s.Knot? && steps != [] && steps[0].InRight? && steps[0].left.Knot? && steps[0].left.right.Knot?
    ensures var parent, S := steps[0].id, steps[0].left;
      var ns' := Paint(Paint(ns, S.right.id, Black), S.id, Red);
      var sv := Value(ns, S);
      && Value(ns', S) == Node(Red, sv.left, sv.value, sv.right.(color := Black))
      && Value(ns', s) == Value(ns, s)
      && At(ns', parent).color == At(ns, parent).color && At(ns', parent).value == At(ns, parent).value
      && Frames(ns', steps[1..]) == Frames(ns, steps[1..])
  {
    var parent, S, U := steps[0].id, steps[0].left, steps[1..];
    View(ns, s, steps);
    LinksRange(ns, S, parent);
    assert S.id in Ids(S) && S.right.id in Ids(S.right);
    var ns1 := Paint(ns, S.right.id, Black);
    PaintValue(ns, S.right.id, Black, s);
    PaintValue(ns, S.right.id, Black, S.left);
    PaintValue(ns, S.right.id, Black, S.right);
    PaintFrames(ns, S.right.id, Black, U);
    PaintValue(ns1, S.id, Red, s);
    PaintValue(ns1, S.id, Red, S);
    PaintFrames(ns1, S.id, Red, U);
  }

  /**
   * Case 2, `cur` a left child, before its rotation: the far cousin turns
   * black, the sibling takes the parent's colour and the parent turns black.
   * The chain is given as it reads after the rotation.
   */
  lemma Case2PaintLeft(ns: seq<RBNode>, s: Shape, steps: seq<Step>)
    requires Links(ns, Graft(s, steps), Null) && Distinct(Graft(s, steps))
    requires s.Knot? && steps != [] && steps[0].InLeft? && steps[0].right.Knot? && steps[0].right.right.Knot?
    ensures var parent, S := steps[0].id, steps[0].right;
      var pc := At(ns, parent).color;
      var ns' := Paint(Paint(Paint(ns, S.right.id, Black), S.id, pc), parent, Black);
      var sv := Value(ns, S);
      && Value(ns', s) == Value(ns, s)
      && Frames(ns', [InLeft(parent, S.left), InLeft(S.id, S.right)] + steps[1..])
         == [LeftOf(Black, At(ns, parent).value, sv.left), LeftOf(pc, sv.value, sv.right.(color := Black))] + Frames(ns, steps[1..])
  {
    var parent, S, U := steps[0].id, steps[0].right, steps[1..];
    var pc := At(ns, parent).color;
    View(ns, s, steps);
    LinksRange(ns, S, parent);
    assert S.id in Ids(S) && S.right.id in Ids(S.right);
    var ns1 := Paint(ns, S.right.id, Black);
    var ns2 := Paint(ns1, S.id, pc);
    var ns3 := Paint(ns2, parent, Black);
    PaintValue(ns, S.right.id, Black, s);
    PaintValue(ns, S.right.id, Black, S.left);
    PaintValue(ns, S.right.id, Black, S.right);
    PaintFrames(ns, S.right.id, Black, U);
    PaintValue(ns1, S.id, pc, s);
    PaintValue(ns1, S.id, pc, S.left);
    PaintValue(ns1, S.id, pc, S.right);
    PaintFrames(ns1, S.id, pc, U);
    PaintValue(ns2, parent, Black, s);
    PaintValue(ns2, parent, Black, S.left);
    PaintValue(ns2, parent, Black, S.right);
    PaintFrames(ns2, parent, Black, U);
    GraftTwo(ns3, s, [InLeft(parent, S.left), InLeft(S.id, S.right)] + U);
  }

  /** Case 2, `cur` a right child: the mirror image. */
  lemma Case2PaintRight(ns: seq<RBNode>, s: Shape, steps: seq<Step>)
    requires Links(ns, Graft(s, steps), Null) && Distinct(Graft(s, steps))
    requires s.Knot? && steps != [] && steps[0].InRight? && steps[0].left.Knot? && steps[0].left.left.Knot?
    ensures var parent, S := steps[0].id, steps[0].left;
      var pc := At(ns, parent).color;
      var ns' := Paint(Paint(Paint(ns, S.left.id, Black), S.id, pc), parent, Black);
      var sv := Value(ns, S);
      && Value(ns', s) == Value(ns, s)
      && Frames(ns', [InRight(S.right, parent), InRight(S.left, S.id)] + steps[1..])
         == [RightOf(sv.right, Black, At(ns, parent).value), RightOf(sv.left.(color := Black), pc, sv.value)] + Frames(ns, steps[1..])
  {
    var parent, S, U := steps[0].id, steps[0].left, steps[1..];
    var pc := At(ns, parent).color;
    View(ns, s, steps);
    LinksRange(ns, S, parent);
    assert S.id in Ids(S) && S.left.id in Ids(S.left);
    var ns1 := Paint(ns, S.left.id, Black);
    var ns2 := Paint(ns1, S.id, pc);
    var ns3 := Paint(ns2, parent, Black);
    PaintValue(ns, S.left.id, Black, s);
    PaintValue(ns, S.left.id, Black, S.left);
    PaintValue(ns, S.left.id, Black, S.right);
    PaintFrames(ns, S.left.id, Black, U);
    PaintValue(ns1, S.id, pc, s);
    PaintValue(ns1, S.id, pc, S.left);
    PaintValue(ns1, S.id, pc, S.right);
    PaintFrames(ns1, S.id, pc, U);
    PaintValue(ns2, parent, Black, s);
    PaintValue(ns2, parent, Black, S.left);
    PaintValue(ns2, parent, Black, S.right);
    PaintFrames(ns2, parent, Black, U);
    GraftTwo(ns3, s, [InRight(S.right, parent), InRight(S.left, S.id)] + U);
  }

  /** Case 4.2, `cur` a left child: the sibling turns red under a black parent. */
  lemma Case4PaintLeft(ns: seq<RBNode>, s: Shape, steps: seq<Step>)
    requires Links(ns, Graft(s, steps), Null) && Distinct(Graft(s, steps))
    requires s.Knot? && steps != [] && steps[0].InLeft? && steps[0].right.Knot?
    ensures var parent, S, U := steps[0].id, steps[0].right, steps[1..];
      var ns' := Paint(ns, S.id, Red);
      && At(ns', parent) == At(ns, parent) && Frames(ns', U) == Frames(ns, U)
      && Value(ns', Knot(s, parent, S)) == Node(At(ns, parent).color, Value(ns, s), At(ns, parent).value, Value(ns, S).(color := Red))
  {
    var parent, S, U := steps[0].id, steps[0].right, steps[1..];
    View(ns, s, steps);
    assert S.id in Ids(S);
    PaintValue(ns, S.id, Red, s);
    PaintValue(ns, S.id, Red, S);
    PaintFrames(ns, S.id, Red, U);
  }

  /** Case 4.1, `cur` a left child: the sibling turns red and the red parent black. */
  lemma Case4RecolorLeft(ns: seq<RBNode>, s: Shape, steps: seq<Step>)
    requires Links(ns, Graft(s, steps), Null) && Distinct(Graft(s, steps))
    requires s.Knot? && steps != [] && steps[0].InLeft? && steps[0].right.Knot?
    ensures var parent, S, U := steps[0].id, steps[0].right, steps[1..];
      var ns' := Paint(Paint(ns, S.id, Red), parent, Black);
      && Value(ns', s) == Value(ns, s)
      && Frames(ns', steps) == [LeftOf(Black, At(ns, parent).value, Value(ns, S).(color := Red))] + Frames(ns, U)
  {
    var parent, S, U := steps[0].id, steps[0].right, steps[1..];
    View(ns, s, steps);
    assert S.id in Ids(S);
    var ns1 := Paint(ns, S.id, Red);
    PaintValue(ns, S.id, Red, s);
    PaintValue(ns, S.id, Red, S);
    PaintFrames(ns, S.id, Red, U);
    PaintValue(ns1, parent, Black, s);
    PaintValue(ns1, parent, Black, S);
    PaintFrames(ns1, parent, Black, U);
  }

  /** Case 4.2, `cur` a right child: the mirror image. */
  lemma Case4PaintRight(ns: seq<RBNode>, s: Shape, steps: seq<Step>)
    requires Links(ns, Graft(s, steps), Null) && Distinct(Graft(s, steps))
    requires s.Knot? && steps != [] && steps[0].InRight? && steps[0].left.Knot?
    ensures var parent, S, U := steps[0].id, steps[0].left, steps[1..];
      var ns' := Paint(ns, S.id, Red);
      && At(ns', parent) == At(ns, parent) && Frames(ns', U) == Frames(ns, U)
      && Value(ns', Knot(S, parent, s)) == Node(At(ns, parent).color, Value(ns, S).(color := Red), At(ns, parent).value, Value(ns, s))
  {
    var parent, S, U := steps[0].id, steps[0].left, steps[1..];
    View(ns, s, steps);
    assert S.id in Ids(S);
    PaintValue(ns, S.id, Red, s);
    PaintValue(ns, S.id, Red, S);
    PaintFrames(ns, S.id, Red, U);
  }

  /** Case 4.1, `cur` a right child: the mirror image. */
  lemma Case4RecolorRight(ns: seq<RBNode>, s: Shape, steps: seq<Step>)
    requires Links(ns, Graft(s, steps), Null) && Distinct(Graft(s, steps))
    requires s.Knot? && steps != [] && steps[0].InRight? && steps[0].left.Knot?
    ensures var parent, S, U := steps[0].id, steps[0].left, steps[1..];
      var ns' := Paint(Paint(ns, S.id, Red), parent, Black);
      && Value(ns', s) == Value(ns, s)
      && Frames(ns', steps) == [RightOf(Value(ns, S).(color := Red), Black, At(ns, parent).value)] + Frames(ns, U)
  {
    var parent, S, U := steps[0].id, steps[0].left, steps[1..];
    View(ns, s, steps);
    assert S.id in Ids(S);
    var ns1 := Paint(ns, S.id, Red);
    PaintValue(ns, S.id, Red, s);
    PaintValue(ns, S.id, Red, S);
    PaintFrames(ns, S.id, Red, U);
    PaintValue(ns1, parent, Black, s);
    PaintValue(ns1, parent, Black, S);
    PaintFrames(ns1, parent, Black, U);
  }
}
