/**
 * The red-black tree as the C++ code holds it: node objects with a colour,
 * a value and three pointers (`_parent`, `_left`, `_right`).  A pointer is
 * an index into a sequence of node records and `Null` stands for nullptr.
 *
 * A ghost `Shape` says which node sits where: it is the tree of node
 * indices that the child pointers describe.  `Links` ties a shape to the
 * pointers (every child pointer and every parent pointer agrees with it),
 * `Value` reads the colours and values along a shape into a `RedBlack.Tree`,
 * and a `Step` sequence is the zipper over shapes, innermost first, that
 * corresponds to a parent chain.
 */
module RedBlackShape {
  import opened RedBlack

  const Null: int := -1

  /** One RBTreeNode object: colour, value, parent, left and right pointers. */
  datatype RBNode = RBNode(color: Color, value: int, parent: int, left: int, right: int)

  /** The record at a pointer; a pointer outside the store reads as a black null node. */
  function At(ns: seq<RBNode>, i: int): RBNode
  {
    if 0 <= i < |ns| then ns[i] else RBNode(Black, 0, Null, Null, Null)
  }

  /** Overwrite the record at a pointer (no effect outside the store). */
  function Set(ns: seq<RBNode>, i: int, n: RBNode): (r: seq<RBNode>)
    ensures |r| == |ns|
  {
    if 0 <= i < |ns| then ns[i := n] else ns
  }

  /** The source's IsBlack on a pointer: null counts as black. */
  predicate NodeIsBlack(ns: seq<RBNode>, p: int)
  {
    p == Null || At(ns, p).color == Black
  }

  /**
   * `parent->_left == self ? parent->_left = that : parent->_right = that`:
   * the child pointer of `n` that held `self` now holds `that`.
   */
  function Retarget(n: RBNode, self: int, that: int): (r: RBNode)
    ensures n.left == self ==> r == n.(left := that)
    ensures n.left != self ==> r == n.(right := that)
  {
    if n.left == self then n.(left := that) else n.(right := that)
  }

  // ------------------------------------------------------------------ shapes

  datatype Shape = Empty | Knot(left: Shape, id: int, right: Shape)

  /** The pointer to the top of a shape. */
  function Id(s: Shape): int
  {
    if s.Empty? then Null else s.id
  }

  ghost function Ids(s: Shape): set<int>
  {
    match s
    case Empty => {}
    case Knot(l, i, r) => Ids(l) + {i} + Ids(r)
  }

  /** No node occurs twice in the shape. */
  ghost predicate Distinct(s: Shape)
  {
    match s
    case Empty => true
    case Knot(l, i, r) =>
      Distinct(l) && Distinct(r) && i !in Ids(l) && i !in Ids(r) && Ids(l) !! Ids(r)
  }

  /**
   * Every node of `s` is in the store, its child pointers point at the tops
   * of its sub-shapes (null for an empty one), and its parent pointer is `up`.
   */
  ghost predicate Links(ns: seq<RBNode>, s: Shape, up: int)
  {
    match s
    case Empty => true
    case Knot(l, i, r) =>
      && 0 <= i < |ns|
      && At(ns, i).parent == up && At(ns, i).left == Id(l) && At(ns, i).right == Id(r)
      && Links(ns, l, i) && Links(ns, r, i)
  }

  /** The tree of colours and values the nodes of `s` hold. */
  ghost function Value(ns: seq<RBNode>, s: Shape): (t: Tree)
    ensures t.Node? <==> s.Knot?
  {
    match s
    case Empty => Leaf
    case Knot(l, i, r) => Node(At(ns, i).color, Value(ns, l), At(ns, i).value, Value(ns, r))
  }

  /** Every node of a linked shape is in the store, so none of them is null. */
  lemma {:induction false} LinksRange(ns: seq<RBNode>, s: Shape, up: int)
    requires Links(ns, s, up)
    ensures forall i | i in Ids(s) :: 0 <= i < |ns|
  {
    match s
    case Empty =>
    case Knot(l, i, r) =>
      LinksRange(ns, l, i);
      LinksRange(ns, r, i);
  }

  /** The null test on a pointer is the null test on the tree it holds. */
  lemma BlackNodeValue(ns: seq<RBNode>, s: Shape, up: int)
    requires Links(ns, s, up)
    ensures NodeIsBlack(ns, Id(s)) <==> IsBlack(Value(ns, s))
    ensures Id(s) == Null <==> s.Empty?
  {
  }

  /** `IsRoot()`: the node has no parent. */
  predicate NodeIsRoot(ns: seq<RBNode>, p: int)
  {
    At(ns, p).parent == Null
  }

  /** `IsLeaf()`: the node has neither child. */
  predicate NodeIsLeaf(ns: seq<RBNode>, p: int)
  {
    At(ns, p).left == Null && At(ns, p).right == Null
  }

  /**
   * In a linked tree a node is the root exactly when no step leads above it,
   * and a leaf exactly when it is the only node of its subtree.
   */
  lemma RootAndLeafNodes(ns: seq<RBNode>, s: Shape, steps: seq<Step>)
    requires Links(ns, Graft(s, steps), Null) && Distinct(Graft(s, steps)) && s.Knot?
    ensures NodeIsRoot(ns, s.id) <==> steps == []
    ensures NodeIsLeaf(ns, s.id) <==> Value(ns, s).left.Leaf? && Value(ns, s).right.Leaf?
  {
    View(ns, s, steps);
    BlackNodeValue(ns, s.left, s.id);
    BlackNodeValue(ns, s.right, s.id);
  }

  // ----------------------------------------------------------- shape zipper

  /** The focus is the left child of node `id` (whose right is `right`), or the right child. */
  datatype Step = InLeft(id: int, right: Shape) | InRight(left: Shape, id: int)

  function Side(st: Step): Shape
  {
    match st
    case InLeft(_, r) => r
    case InRight(l, _) => l
  }

  function Hang(s: Shape, st: Step): (r: Shape)
    ensures r.Knot? && r.id == st.id
  {
    match st
    case InLeft(p, r) => Knot(s, p, r)
    case InRight(l, p) => Knot(l, p, s)
  }

  /** The whole shape: `s` put back at its position under the steps. */
  function Graft(s: Shape, steps: seq<Step>): Shape
    decreases |steps|
  {
    if steps == [] then s else Graft(Hang(s, steps[0]), steps[1..])
  }

  /** The parent pointer of the focus. */
  function Up(steps: seq<Step>): int
  {
    if steps == [] then Null else steps[0].id
  }

  ghost function StepsIds(steps: seq<Step>): set<int>
    decreases |steps|
  {
    if steps == [] then {} else {steps[0].id} + Ids(Side(steps[0])) + StepsIds(steps[1..])
  }

  ghost predicate StepsDistinct(steps: seq<Step>)
    decreases |steps|
  {
    steps == [] ||
    (&& Distinct(Side(steps[0])) && steps[0].id !in Ids(Side(steps[0]))
     && ({steps[0].id} + Ids(Side(steps[0]))) !! StepsIds(steps[1..])
     && StepsDistinct(steps[1..]))
  }

  /** The pointers along the chain agree with the steps; `c` is the focus pointer. */
  ghost predicate StepsLinked(ns: seq<RBNode>, c: int, steps: seq<Step>)
    decreases |steps|
  {
    steps == [] ||
    var p := steps[0].id;
    && 0 <= p < |ns| && At(ns, p).parent == Up(steps[1..])
    && (match steps[0]
        case InLeft(_, r) => At(ns, p).left == c && At(ns, p).right == Id(r) && Links(ns, r, p)
        case InRight(l, _) => At(ns, p).left == Id(l) && At(ns, p).right == c && Links(ns, l, p))
    && StepsLinked(ns, p, steps[1..])
  }

  ghost function FrameOf(ns: seq<RBNode>, st: Step): Frame
  {
    match st
    case InLeft(p, r) => LeftOf(At(ns, p).color, At(ns, p).value, Value(ns, r))
    case InRight(l, p) => RightOf(Value(ns, l), At(ns, p).color, At(ns, p).value)
  }

  /** The value-level parent chain the steps describe. */
  ghost function Frames(ns: seq<RBNode>, steps: seq<Step>): (r: seq<Frame>)
    ensures |r| == |steps|
    decreases |steps|
  {
    if steps == [] then [] else [FrameOf(ns, steps[0])] + Frames(ns, steps[1..])
  }

  /** One step up: the parent's value is the focus wrapped in the step's frame. */
  lemma HangValue(ns: seq<RBNode>, s: Shape, st: Step)
    ensures Value(ns, Hang(s, st)) == Wrap(Value(ns, s), FrameOf(ns, st))
  {
  }

  lemma {:induction false} GraftValue(ns: seq<RBNode>, s: Shape, steps: seq<Step>)
    ensures Value(ns, Graft(s, steps)) == Plug(Value(ns, s), Frames(ns, steps))
    decreases |steps|
  {
    if steps != [] {
      GraftValue(ns, Hang(s, steps[0]), steps[1..]);
    }
  }

  lemma {:induction false} GraftLinks(ns: seq<RBNode>, s: Shape, steps: seq<Step>)
    ensures Links(ns, Graft(s, steps), Null) <==> Links(ns, s, Up(steps)) && StepsLinked(ns, Id(s), steps)
    decreases |steps|
  {
    if steps != [] {
      GraftLinks(ns, Hang(s, steps[0]), steps[1..]);
    }
  }

  lemma {:induction false} GraftDistinct(s: Shape, steps: seq<Step>)
    ensures Ids(Graft(s, steps)) == Ids(s) + StepsIds(steps)
    ensures Distinct(Graft(s, steps)) <==> Distinct(s) && StepsDistinct(steps) && Ids(s) !! StepsIds(steps)
    decreases |steps|
  {
    if steps != [] {
      GraftDistinct(Hang(s, steps[0]), steps[1..]);
    }
  }

  /** The top of the whole shape is the outermost step, or the focus when there is none. */
  lemma {:induction false} GraftTop(s: Shape, steps: seq<Step>)
    ensures Id(Graft(s, steps)) == if steps == [] then Id(s) else steps[|steps| - 1].id
    ensures steps != [] ==> steps[|steps| - 1].id in StepsIds(steps)
    decreases |steps|
  {
    if steps != [] {
      GraftTop(Hang(s, steps[0]), steps[1..]);
      if |steps| > 1 {
        assert steps[1..][|steps| - 2] == steps[|steps| - 1];
      }
    }
  }

  /** A valid store seen from a focus: everything the three Graft lemmas say. */
  lemma View(ns: seq<RBNode>, s: Shape, steps: seq<Step>)
    requires Links(ns, Graft(s, steps), Null) && Distinct(Graft(s, steps))
    ensures Links(ns, s, Up(steps)) && StepsLinked(ns, Id(s), steps)
    ensures Distinct(s) && StepsDistinct(steps) && Ids(s) !! StepsIds(steps)
    ensures Value(ns, Graft(s, steps)) == Plug(Value(ns, s), Frames(ns, steps))
    ensures Ids(Graft(s, steps)) == Ids(s) + StepsIds(steps)
  {
    GraftLinks(ns, s, steps);
    GraftDistinct(s, steps);
    GraftValue(ns, s, steps);
  }

  /** Which child pointer of the parent holds the focus tells which kind of step it is. */
  lemma ChildSide(ns: seq<RBNode>, c: int, steps: seq<Step>)
    requires StepsLinked(ns, c, steps) && steps != [] && 0 <= c && c !in Ids(Side(steps[0]))
    ensures At(ns, steps[0].id).left == c <==> steps[0].InLeft?
    ensures At(ns, steps[0].id).right == c <==> steps[0].InRight?
  {
    var sib := Side(steps[0]);
    LinksRange(ns, sib, steps[0].id);
    assert sib.Knot? ==> sib.id in Ids(sib);
  }

  /** Two steps up from the focus. */
  lemma GraftTwo(ns0: seq<RBNode>, s: Shape, steps: seq<Step>)
    requires |steps| >= 2
    ensures Graft(s, steps) == Graft(Hang(Hang(s, steps[0]), steps[1]), steps[2..])
    ensures Frames(ns0, steps) == [FrameOf(ns0, steps[0]), FrameOf(ns0, steps[1])] + Frames(ns0, steps[2..])
  {
    var rest := steps[1..];
    assert rest[0] == steps[1] && rest[1..] == steps[2..];
    assert Graft(s, steps) == Graft(Hang(s, steps[0]), rest);
    assert Frames(ns0, steps) == [FrameOf(ns0, steps[0])] + Frames(ns0, rest);
    assert Frames(ns0, rest) == [FrameOf(ns0, steps[1])] + Frames(ns0, steps[2..]);
  }

  /** The tails of a chain that starts with two given steps. */
  lemma TwoStepsTail(a: Step, b: Step, U: seq<Step>)
    ensures ([a, b] + U)[1..] == [b] + U && ([a, b] + U)[2..] == U
  {
  }

  // ------------------------------------------------------------ frame lemmas

  /** The records at the nodes of X are unchanged. */
  ghost predicate SameOn(ns: seq<RBNode>, ns': seq<RBNode>, X: set<int>)
  {
    forall i | i in X :: At(ns', i) == At(ns, i)
  }

  /** The colours and values at the nodes of X are unchanged. */
  ghost predicate SamePayloadOn(ns: seq<RBNode>, ns': seq<RBNode>, X: set<int>)
  {
    forall i | i in X :: At(ns', i).color == At(ns, i).color && At(ns', i).value == At(ns, i).value
  }

  /** Only pointers changed. */
  ghost predicate SamePayload(ns: seq<RBNode>, ns': seq<RBNode>)
  {
    |ns'| == |ns| && forall i :: At(ns', i).color == At(ns, i).color && At(ns', i).value == At(ns, i).value
  }

  /** Only colours and values changed. */
  ghost predicate SamePointers(ns: seq<RBNode>, ns': seq<RBNode>)
  {
    |ns'| == |ns| &&
    forall i :: At(ns', i).parent == At(ns, i).parent && At(ns', i).left == At(ns, i).left && At(ns', i).right == At(ns, i).right
  }

  lemma {:induction false} LinksFrame(ns: seq<RBNode>, ns': seq<RBNode>, s: Shape, up: int)
    requires Links(ns, s, up) && |ns| <= |ns'| && SameOn(ns, ns', Ids(s))
    ensures Links(ns', s, up)
  {
    match s
    case Empty =>
    case Knot(l, i, r) =>
      LinksFrame(ns, ns', l, i);
      LinksFrame(ns, ns', r, i);
  }

  lemma {:induction false} LinksPointers(ns: seq<RBNode>, ns': seq<RBNode>, s: Shape, up: int)
    requires Links(ns, s, up) && SamePointers(ns, ns')
    ensures Links(ns', s, up)
  {
    match s
    case Empty =>
    case Knot(l, i, r) =>
      LinksPointers(ns, ns', l, i);
      LinksPointers(ns, ns', r, i);
  }

  lemma {:induction false} StepsLinkedFrame(ns: seq<RBNode>, ns': seq<RBNode>, c: int, steps: seq<Step>)
    requires StepsLinked(ns, c, steps) && |ns| <= |ns'| && SameOn(ns, ns', StepsIds(steps))
    ensures StepsLinked(ns', c, steps)
    decreases |steps|
  {
    if steps != [] {
      LinksFrame(ns, ns', Side(steps[0]), steps[0].id);
      StepsLinkedFrame(ns, ns', steps[0].id, steps[1..]);
    }
  }

  lemma {:induction false} ValueFrame(ns: seq<RBNode>, ns': seq<RBNode>, s: Shape)
    requires SamePayloadOn(ns, ns', Ids(s))
    ensures Value(ns', s) == Value(ns, s)
  {
    match s
    case Empty =>
    case Knot(l, i, r) =>
      ValueFrame(ns, ns', l);
      ValueFrame(ns, ns', r);
  }

  lemma {:induction false} FramesFrame(ns: seq<RBNode>, ns': seq<RBNode>, steps: seq<Step>)
    requires SamePayloadOn(ns, ns', StepsIds(steps))
    ensures Frames(ns', steps) == Frames(ns, steps)
    decreases |steps|
  {
    if steps != [] {
      ValueFrame(ns, ns', Side(steps[0]));
      FramesFrame(ns, ns', steps[1..]);
    }
  }

  /** Changing only pointers keeps every shape's value and every chain's frames. */
  lemma PayloadKept(ns: seq<RBNode>, ns': seq<RBNode>, s: Shape, steps: seq<Step>)
    requires SamePayload(ns, ns')
    ensures Value(ns', s) == Value(ns, s) && Frames(ns', steps) == Frames(ns, steps)
  {
    ValueFrame(ns, ns', s);
    FramesFrame(ns, ns', steps);
  }

  // ---------------------------------------------------------------- colours

  /** `p->_color = c`. */
  function Paint(ns: seq<RBNode>, p: int, c: Color): (r: seq<RBNode>)
    ensures SamePointers(ns, r)
  {
    Set(ns, p, At(ns, p).(color := c))
  }

  /** Painting a node recolours the top of its own shape and nothing outside it. */
  lemma PaintValue(ns: seq<RBNode>, p: int, c: Color, s: Shape)
    requires Distinct(s) && 0 <= p < |ns|
    ensures p !in Ids(s) ==> Value(Paint(ns, p, c), s) == Value(ns, s)
    ensures s.Knot? && s.id == p ==>
      Value(Paint(ns, p, c), s) == Node(c, Value(ns, s.left), At(ns, p).value, Value(ns, s.right))
  {
    if p !in Ids(s) {
      ValueFrame(ns, Paint(ns, p, c), s);
    }
    if s.Knot? && s.id == p {
      ValueFrame(ns, Paint(ns, p, c), s.left);
      ValueFrame(ns, Paint(ns, p, c), s.right);
    }
  }

  lemma PaintFrames(ns: seq<RBNode>, p: int, c: Color, steps: seq<Step>)
    requires p !in StepsIds(steps)
    ensures Frames(Paint(ns, p, c), steps) == Frames(ns, steps)
  {
    FramesFrame(ns, Paint(ns, p, c), steps);
  }

  // -------------------------------------------------------------- rotations

  /** The shape after LeftRotate at its top. */
  function ShapeRotateLeft(s: Shape): (r: Shape)
    requires s.Knot? && s.right.Knot?
    ensures r.Knot? && r.left.Knot? && Ids(r) == Ids(s)
  {
    Knot(Knot(s.left, s.id, s.right.left), s.right.id, s.right.right)
  }

  /** The shape after RightRotate at its top. */
  function ShapeRotateRight(s: Shape): (r: Shape)
    requires s.Knot? && s.left.Knot?
    ensures r.Knot? && r.right.Knot? && Ids(r) == Ids(s)
  {
    Knot(s.left.left, s.left.id, Knot(s.left.right, s.id, s.right))
  }

  lemma RotateShapeLeft(ns: seq<RBNode>, s: Shape)
    requires s.Knot? && s.right.Knot? && Distinct(s)
    ensures Distinct(ShapeRotateLeft(s))
    ensures Value(ns, s).Node? && Value(ns, s).right.Node?
    ensures Value(ns, ShapeRotateLeft(s)) == RotateLeft(Value(ns, s))
  {
  }

  lemma RotateShapeRight(ns: seq<RBNode>, s: Shape)
    requires s.Knot? && s.left.Knot? && Distinct(s)
    ensures Distinct(ShapeRotateRight(s))
    ensures Value(ns, s).Node? && Value(ns, s).left.Node?
    ensures Value(ns, ShapeRotateRight(s)) == RotateRight(Value(ns, s))
  {
  }

  /** The pointer assignments of LeftRotate(top), in the source's order. */
  function LeftRotated(ns: seq<RBNode>, self: int): (r: seq<RBNode>)
    ensures |r| == |ns|
  {
    var that := At(ns, self).right;
    var parent := At(ns, self).parent;
    var n1 := Set(ns, self, At(ns, self).(parent := that));
    var n2 := Set(n1, self, At(n1, self).(right := At(n1, that).left));
    var n3 := Set(n2, that, At(n2, that).(left := self));
    var n4 := Set(n3, that, At(n3, that).(parent := parent));
    var n5 := if At(n4, self).right != Null then Set(n4, At(n4, self).right, At(n4, At(n4, self).right).(parent := self)) else n4;
    if parent != Null then Set(n5, parent, Retarget(At(n5, parent), self, that)) else n5
  }

  /** The pointer assignments of RightRotate(top), in the source's order. */
  function RightRotated(ns: seq<RBNode>, self: int): (r: seq<RBNode>)
    ensures |r| == |ns|
  {
    var that := At(ns, self).left;
    var parent := At(ns, self).parent;
    var n1 := Set(ns, self, At(ns, self).(left := At(ns, that).right));
    var n2 := Set(n1, self, At(n1, self).(parent := that));
    var n3 := Set(n2, that, At(n2, that).(right := self));
    var n4 := Set(n3, that, At(n3, that).(parent := parent));
    var n5 := if At(n4, self).left != Null then Set(n4, At(n4, self).left, At(n4, At(n4, self).left).(parent := self)) else n4;
    if parent != Null then Set(n5, parent, Retarget(At(n5, parent), self, that)) else n5
  }

  /** Re-parenting the top of a shape keeps the rest of its links. */
  lemma Reparent(ns: seq<RBNode>, ns': seq<RBNode>, s: Shape, up: int, up': int)
    requires Links(ns, s, up) && Distinct(s) && |ns| <= |ns'|
    requires s.Knot? ==> SameOn(ns, ns', Ids(s) - {s.id}) && At(ns', s.id) == At(ns, s.id).(parent := up')
    ensures Links(ns', s, up')
  {
    if s.Knot? {
      LinksFrame(ns, ns', s.left, s.id);
      LinksFrame(ns, ns', s.right, s.id);
    }
  }

  /** Retargeting the parent's child pointer from the old top to the new one keeps the chain. */
  lemma RetargetChain(ns: seq<RBNode>, ns': seq<RBNode>, c: int, c': int, steps: seq<Step>)
    requires StepsLinked(ns, c, steps) && StepsDistinct(steps) && |ns| <= |ns'|
    requires 0 <= c && c !in StepsIds(steps)
    requires steps != [] ==> SameOn(ns, ns', StepsIds(steps) - {steps[0].id})
    requires steps != [] ==> At(ns', steps[0].id) == Retarget(At(ns, steps[0].id), c, c')
    ensures StepsLinked(ns', c', steps)
  {
    if steps != [] {
      var p := steps[0].id;
      assert StepsIds(steps) == {p} + Ids(Side(steps[0])) + StepsIds(steps[1..]);
      assert p !in StepsIds(steps[1..]) && p !in Ids(Side(steps[0]));
      LinksFrame(ns, ns', Side(steps[0]), p);
      StepsLinkedFrame(ns, ns', p, steps[1..]);
      if steps[0].InRight? {
        assert c !in Ids(steps[0].left);
        assert At(ns, p).left != c by {
          if steps[0].left.Knot? { assert steps[0].left.id in Ids(steps[0].left); }
        }
      }
    }
  }

  /**
   * Linking a new childless node `k` into the null pointer the chain ends at:
   * `k` is appended to the store, its parent is the chain's first node, and
   * that node's child pointer on the side of the step now points at `k`.
   */
  lemma AttachLeaf(ns: seq<RBNode>, ns': seq<RBNode>, k: int, steps: seq<Step>)
    requires Links(ns, Graft(Empty, steps), Null) && Distinct(Graft(Empty, steps)) && steps != []
    requires k == |ns| && |ns'| == |ns| + 1
    requires At(ns', k).parent == steps[0].id && At(ns', k).left == Null && At(ns', k).right == Null
    requires SameOn(ns, ns', StepsIds(steps) - {steps[0].id})
    requires At(ns', steps[0].id) == if steps[0].InLeft? then At(ns, steps[0].id).(left := k)
                                     else At(ns, steps[0].id).(right := k)
    ensures Links(ns', Graft(Knot(Empty, k, Empty), steps), Null)
    ensures Distinct(Graft(Knot(Empty, k, Empty), steps))
    ensures Frames(ns', steps) == Frames(ns, steps)
    ensures Id(Graft(Knot(Empty, k, Empty), steps)) == Id(Graft(Empty, steps))
  {
    var p := steps[0].id;
    View(ns, Empty, steps);
    LinksRange(ns, Graft(Empty, steps), Null);
    assert k !in StepsIds(steps);
    assert StepsIds(steps) == {p} + Ids(Side(steps[0])) + StepsIds(steps[1..]);
    LinksFrame(ns, ns', Side(steps[0]), p);
    StepsLinkedFrame(ns, ns', p, steps[1..]);
    assert StepsLinked(ns', k, steps);
    GraftLinks(ns', Knot(Empty, k, Empty), steps);
    GraftDistinct(Knot(Empty, k, Empty), steps);
    FramesFrame(ns, ns', steps);
    GraftTop(Empty, steps);
    GraftTop(Knot(Empty, k, Empty), steps);
  }

  /** Where LeftRotate changes the store: the two rotated nodes, the moved subtree and the parent. */
  lemma LeftRotatedAt(ns: seq<RBNode>, s: Shape, steps: seq<Step>)
    requires Links(ns, s, Up(steps)) && StepsLinked(ns, Id(s), steps)
    requires Distinct(s) && Ids(s) !! StepsIds(steps)
    requires s.Knot? && s.right.Knot?
    ensures var ns' := LeftRotated(ns, s.id);
      var x, y, b, p := s.id, s.right.id, Id(s.right.left), Up(steps);
      && At(ns', x) == At(ns, x).(parent := y, right := b)
      && At(ns', y) == At(ns, y).(left := x, parent := p)
      && (b != Null ==> At(ns', b) == At(ns, b).(parent := x))
      && (p != Null ==> At(ns', p) == Retarget(At(ns, p), x, y))
      && SameOn(ns, ns', Ids(s) + StepsIds(steps) - {x, y, b, p})
  {
    var x, y, p := s.id, s.right.id, Up(steps);
    var b := Id(s.right.left);
    assert Links(ns, s.right, x) && Links(ns, s.right.left, y);
    assert x != y && y !in Ids(s.left) && x !in Ids(s.right);
    assert s.right.left.Knot? ==> b in Ids(s.right) && b in Ids(s) && b != x && b != y;
    assert p != Null ==> p in StepsIds(steps) && p !in Ids(s);
  }

  lemma RightRotatedAt(ns: seq<RBNode>, s: Shape, steps: seq<Step>)
    requires Links(ns, s, Up(steps)) && StepsLinked(ns, Id(s), steps)
    requires Distinct(s) && Ids(s) !! StepsIds(steps)
    requires s.Knot? && s.left.Knot?
    ensures var ns' := RightRotated(ns, s.id);
      var x, y, b, p := s.id, s.left.id, Id(s.left.right), Up(steps);
      && At(ns', x) == At(ns, x).(parent := y, left := b)
      && At(ns', y) == At(ns, y).(right := x, parent := p)
      && (b != Null ==> At(ns', b) == At(ns, b).(parent := x))
      && (p != Null ==> At(ns', p) == Retarget(At(ns, p), x, y))
      && SameOn(ns, ns', Ids(s) + StepsIds(steps) - {x, y, b, p})
  {
    var x, y, p := s.id, s.left.id, Up(steps);
    var b := Id(s.left.right);
    assert Links(ns, s.left, x) && Links(ns, s.left.right, y);
    assert x != y && y !in Ids(s.right) && x !in Ids(s.left);
    assert s.left.right.Knot? ==> b in Ids(s.left) && b in Ids(s) && b != x && b != y;
    assert p != Null ==> p in StepsIds(steps) && p !in Ids(s);
  }

  /** Relinking the three nodes a left rotation moves gives the links of the rotated shape. */
  lemma RotatedLeftLinks(ns: seq<RBNode>, ns': seq<RBNode>, s: Shape, up: int)
    requires Links(ns, s, up) && Distinct(s) && |ns| <= |ns'|
    requires s.Knot? && s.right.Knot?
    requires var x, y, b := s.id, s.right.id, Id(s.right.left);
      && At(ns', x) == At(ns, x).(parent := y, right := b)
      && At(ns', y) == At(ns, y).(left := x, parent := up)
      && (b != Null ==> At(ns', b) == At(ns, b).(parent := x))
      && SameOn(ns, ns', Ids(s) - {x, y, b})
    ensures Links(ns', ShapeRotateLeft(s), up)
  {
    var x, y := s.id, s.right.id;
    var A, B, C := s.left, s.right.left, s.right.right;
    assert Links(ns, s.right, x);
    var rest := Ids(s) - {x, y, Id(B)};
    assert Ids(s) == Ids(A) + {x} + (Ids(B) + {y} + Ids(C));
    assert Ids(B) !! Ids(C) && Ids(A) !! Ids(B) && Ids(A) !! Ids(C);
    assert B.Knot? ==> Id(B) in Ids(B);
    LinksRange(ns, s, up);
    assert Ids(A) <= rest && Ids(C) <= rest && Ids(B) - {Id(B)} <= rest;
    LinksFrame(ns, ns', A, x);
    LinksFrame(ns, ns', C, y);
    Reparent(ns, ns', B, y, x);
  }

  /** The mirror image of RotatedLeftLinks. */
  lemma RotatedRightLinks(ns: seq<RBNode>, ns': seq<RBNode>, s: Shape, up: int)
    requires Links(ns, s, up) && Distinct(s) && |ns| <= |ns'|
    requires s.Knot? && s.left.Knot?
    requires var x, y, b := s.id, s.left.id, Id(s.left.right);
      && At(ns', x) == At(ns, x).(parent := y, left := b)
      && At(ns', y) == At(ns, y).(right := x, parent := up)
      && (b != Null ==> At(ns', b) == At(ns, b).(parent := x))
      && SameOn(ns, ns', Ids(s) - {x, y, b})
    ensures Links(ns', ShapeRotateRight(s), up)
  {
    var x, y := s.id, s.left.id;
    var A, B, C := s.left.left, s.left.right, s.right;
    assert Links(ns, s.left, x);
    var rest := Ids(s) - {x, y, Id(B)};
    assert Ids(s) == (Ids(A) + {y} + Ids(B)) + {x} + Ids(C);
    assert Ids(B) !! Ids(A) && Ids(C) !! Ids(B) && Ids(A) !! Ids(C);
    assert B.Knot? ==> Id(B) in Ids(B);
    LinksRange(ns, s, up);
    assert Ids(A) <= rest && Ids(C) <= rest && Ids(B) - {Id(B)} <= rest;
    LinksFrame(ns, ns', A, y);
    LinksFrame(ns, ns', C, x);
    Reparent(ns, ns', B, y, x);
  }

  lemma LeftRotatedPayload(ns: seq<RBNode>, x: int)
    ensures SamePayload(ns, LeftRotated(ns, x))
  {
  }

  lemma RightRotatedPayload(ns: seq<RBNode>, x: int)
    ensures SamePayload(ns, RightRotated(ns, x))
  {
  }

  /** LeftRotate relinks the store to the rotated shape and touches no colour or value. */
  lemma LeftRotateLinks(ns: seq<RBNode>, s: Shape, steps: seq<Step>)
    requires Links(ns, Graft(s, steps), Null) && Distinct(Graft(s, steps))
    requires s.Knot? && s.right.Knot?
    ensures Links(LeftRotated(ns, s.id), Graft(ShapeRotateLeft(s), steps), Null)
    ensures Distinct(Graft(ShapeRotateLeft(s), steps))
    ensures SamePayload(ns, LeftRotated(ns, s.id))
  {
    View(ns, s, steps);
    LeftRotatedAt(ns, s, steps);
    var ns' := LeftRotated(ns, s.id);
    var r := ShapeRotateLeft(s);
    var x, y, p := s.id, s.right.id, Up(steps);
    var b := Id(s.right.left);
    assert SameOn(ns, ns', Ids(s) - {x, y, b}) by {
      LinksRange(ns, s, p);
      assert p != Null ==> p !in Ids(s);
    }
    RotatedLeftLinks(ns, ns', s, p);
    assert SameOn(ns, ns', StepsIds(steps) - {p}) by {
      assert x in Ids(s) && y in Ids(s) && (b != Null ==> b in Ids(s));
    }
    LinksRange(ns, s, p);
    RetargetChain(ns, ns', x, y, steps);
    GraftLinks(ns', r, steps);
    RotateShapeLeft(ns, s);
    GraftDistinct(r, steps);
    LeftRotatedPayload(ns, x);
  }

  lemma RightRotateLinks(ns: seq<RBNode>, s: Shape, steps: seq<Step>)
    requires Links(ns, Graft(s, steps), Null) && Distinct(Graft(s, steps))
    requires s.Knot? && s.left.Knot?
    ensures Links(RightRotated(ns, s.id), Graft(ShapeRotateRight(s), steps), Null)
    ensures Distinct(Graft(ShapeRotateRight(s), steps))
    ensures SamePayload(ns, RightRotated(ns, s.id))
  {
    View(ns, s, steps);
    RightRotatedAt(ns, s, steps);
    var ns' := RightRotated(ns, s.id);
    var r := ShapeRotateRight(s);
    var x, y, p := s.id, s.left.id, Up(steps);
    var b := Id(s.left.right);
    assert SameOn(ns, ns', Ids(s) - {x, y, b}) by {
      LinksRange(ns, s, p);
      assert p != Null ==> p !in Ids(s);
    }
    RotatedRightLinks(ns, ns', s, p);
    assert SameOn(ns, ns', StepsIds(steps) - {p}) by {
      assert x in Ids(s) && y in Ids(s) && (b != Null ==> b in Ids(s));
    }
    LinksRange(ns, s, p);
    RetargetChain(ns, ns', x, y, steps);
    GraftLinks(ns', r, steps);
    RotateShapeRight(ns, s);
    GraftDistinct(r, steps);
    RightRotatedPayload(ns, x);
  }

  /** What LeftRotate(top) does to the tree the pointers describe. */
  lemma LeftRotateValue(ns: seq<RBNode>, s: Shape, steps: seq<Step>)
    requires Links(ns, Graft(s, steps), Null) && Distinct(Graft(s, steps))
    requires s.Knot? && s.right.Knot?
    ensures Value(ns, s).Node? && Value(ns, s).right.Node?
    ensures Value(LeftRotated(ns, s.id), Graft(ShapeRotateLeft(s), steps))
         == Plug(RotateLeft(Value(ns, s)), Frames(ns, steps))
  {
    var ns' := LeftRotated(ns, s.id);
    var r := ShapeRotateLeft(s);
    GraftDistinct(s, steps);
    LeftRotateLinks(ns, s, steps);
    GraftValue(ns', r, steps);
    PayloadKept(ns, ns', r, steps);
    RotateShapeLeft(ns, s);
  }

  /** What RightRotate(top) does to the tree the pointers describe. */
  lemma RightRotateValue(ns: seq<RBNode>, s: Shape, steps: seq<Step>)
    requires Links(ns, Graft(s, steps), Null) && Distinct(Graft(s, steps))
    requires s.Knot? && s.left.Knot?
    ensures Value(ns, s).Node? && Value(ns, s).left.Node?
    ensures Value(RightRotated(ns, s.id), Graft(ShapeRotateRight(s), steps))
         == Plug(RotateRight(Value(ns, s)), Frames(ns, steps))
  {
    var ns' := RightRotated(ns, s.id);
    var r := ShapeRotateRight(s);
    GraftDistinct(s, steps);
    RightRotateLinks(ns, s, steps);
    GraftValue(ns', r, steps);
    PayloadKept(ns, ns', r, steps);
    RotateShapeRight(ns, s);
  }

  // ---------------------------------------------------------------- removal

  /** Grafting under a chain that is split in two is grafting twice. */
  lemma {:induction false} GraftAppend(s: Shape, a: seq<Step>, b: seq<Step>)
    ensures Graft(s, a + b) == Graft(Graft(s, a), b)
    decreases |a|
  {
    if a == [] {
      assert a + b == b;
    } else {
      assert (a + b)[1..] == a[1..] + b;
      GraftAppend(Hang(s, a[0]), a[1..], b);
    }
  }

  /** The frames of a split chain are the frames of its two parts. */
  lemma {:induction false} FramesAppend(ns: seq<RBNode>, a: seq<Step>, b: seq<Step>)
    ensures Frames(ns, a + b) == Frames(ns, a) + Frames(ns, b)
    decreases |a|
  {
    if a == [] {
      assert a + b == b;
    } else {
      assert (a + b)[1..] == a[1..] + b;
      FramesAppend(ns, a[1..], b);
    }
  }

  /** `std::swap(ns[a].value, ns[b].value)`. */
  function Swapped(ns: seq<RBNode>, a: int, b: int): (r: seq<RBNode>)
    ensures |r| == |ns|
  {
    Set(Set(ns, a, At(ns, a).(value := At(ns, b).value)), b, At(ns, b).(value := At(ns, a).value))
  }

  /** The swap changes the values at the two nodes and nothing else. */
  lemma SwappedAt(ns: seq<RBNode>, a: int, b: int, i: int)
    requires 0 <= a < |ns| && 0 <= b < |ns| && a != b
    ensures At(Swapped(ns, a, b), i) ==
      if i == a then At(ns, a).(value := At(ns, b).value)
      else if i == b then At(ns, b).(value := At(ns, a).value)
      else At(ns, i)
  {
  }

  /** Swapping two values keeps every pointer, and the payload away from the two nodes. */
  lemma SwappedFrame(ns: seq<RBNode>, a: int, b: int, X: set<int>)
    requires 0 <= a < |ns| && 0 <= b < |ns| && a != b && a !in X && b !in X
    ensures SamePointers(ns, Swapped(ns, a, b)) && SamePayloadOn(ns, Swapped(ns, a, b), X)
  {
    forall i {
      SwappedAt(ns, a, b, i);
    }
  }

  /**
   * The top `s` of a focus and a node `m` of its right subtree, reached by
   * `ms`, are two different nodes of the store, and neither occurs in the
   * rest of the tree around them.
   */
  lemma SwapApart(ns: seq<RBNode>, s: Shape, steps: seq<Step>, m: Shape, ms: seq<Step>)
    requires Links(ns, Graft(s, steps), Null) && Distinct(Graft(s, steps))
    requires s.Knot? && m.Knot? && Graft(m, ms) == s.right
    ensures 0 <= s.id < |ns| && 0 <= m.id < |ns| && s.id != m.id
    ensures s.id !in Ids(m.right) && m.id !in Ids(m.right)
    ensures s.id !in StepsIds(ms) && m.id !in StepsIds(ms)
    ensures s.id !in Ids(s.left) && m.id !in Ids(s.left)
    ensures s.id !in StepsIds(steps) && m.id !in StepsIds(steps)
  {
    View(ns, s, steps);
    GraftDistinct(m, ms);
    RightSubtreeApart(s, steps, m, ms);
    LinksRange(ns, s, Up(steps));
  }

  lemma RightSubtreeApart(s: Shape, steps: seq<Step>, m: Shape, ms: seq<Step>)
    requires s.Knot? && m.Knot? && Distinct(s) && Ids(s) !! StepsIds(steps)
    requires Distinct(m) && Ids(m) !! StepsIds(ms) && Ids(s.right) == Ids(m) + StepsIds(ms)
    ensures s.id in Ids(s) && m.id in Ids(s) && s.id != m.id
    ensures s.id !in Ids(m.right) && m.id !in Ids(m.right)
    ensures s.id !in StepsIds(ms) && m.id !in StepsIds(ms)
    ensures s.id !in Ids(s.left) && m.id !in Ids(s.left)
    ensures s.id !in StepsIds(steps) && m.id !in StepsIds(steps)
  {
  }

  /**
   * `std::swap(cur->_value, minNode->_value)` for the top `s` of a focus and
   * the node `m`, without a left child, that `ms` leads to from `s`'s right
   * child: only the two values change, and `m` now holds `s`'s value.
   */
  lemma SwapValues(ns: seq<RBNode>, s: Shape, steps: seq<Step>, m: Shape, ms: seq<Step>)
    requires Links(ns, Graft(s, steps), Null) && Distinct(Graft(s, steps))
    requires s.Knot? && m.Knot? && m.left.Empty? && Graft(m, ms) == s.right
    ensures SamePointers(ns, Swapped(ns, s.id, m.id))
    ensures Value(Swapped(ns, s.id, m.id), m) == Node(At(ns, m.id).color, Leaf, At(ns, s.id).value, Value(ns, m.right))
  {
    var c, k := s.id, m.id;
    SwapApart(ns, s, steps, m, ms);
    SwappedAt(ns, c, k, k);
    SwappedFrame(ns, c, k, Ids(m.right));
    ValueFrame(ns, Swapped(ns, c, k), m.right);
  }

  /** After the swap the chain above `m` passes through `s`, which holds `m`'s old value. */
  lemma SwapFrames(ns: seq<RBNode>, s: Shape, steps: seq<Step>, m: Shape, ms: seq<Step>)
    requires Links(ns, Graft(s, steps), Null) && Distinct(Graft(s, steps))
    requires s.Knot? && m.Knot? && Graft(m, ms) == s.right
    ensures Frames(Swapped(ns, s.id, m.id), ms + ([InRight(s.left, s.id)] + steps)) ==
      Frames(ns, ms) + [RightOf(Value(ns, s.left), At(ns, s.id).color, At(ns, m.id).value)] + Frames(ns, steps)
  {
    SwapApart(ns, s, steps, m, ms);
    SwapChain(ns, s.left, s.id, steps, m.id, ms);
  }

  /** SwapFrames, once the two nodes are known to lie apart from the chain. */
  lemma SwapChain(ns: seq<RBNode>, sl: Shape, c: int, steps: seq<Step>, k: int, ms: seq<Step>)
    requires 0 <= c < |ns| && 0 <= k < |ns| && c != k
    requires c !in StepsIds(ms) && k !in StepsIds(ms)
    requires c !in Ids(sl) && k !in Ids(sl)
    requires c !in StepsIds(steps) && k !in StepsIds(steps)
    ensures Frames(Swapped(ns, c, k), ms + ([InRight(sl, c)] + steps)) ==
      Frames(ns, ms) + [RightOf(Value(ns, sl), At(ns, c).color, At(ns, k).value)] + Frames(ns, steps)
  {
    var ns' := Swapped(ns, c, k);
    assert Frames(ns', ms) == Frames(ns, ms) by {
      SwappedFrame(ns, c, k, StepsIds(ms));
      FramesFrame(ns, ns', ms);
    }
    var top := [RightOf(Value(ns, sl), At(ns, c).color, At(ns, k).value)];
    SwapChainHead(ns, sl, c, steps, k);
    FramesAppend(ns', ms, [InRight(sl, c)] + steps);
    Assoc(Frames(ns, ms), top, Frames(ns, steps));
  }

  /** The step through `s` after the swap: `s` shows `m`'s old value, the rest is unchanged. */
  lemma SwapChainHead(ns: seq<RBNode>, sl: Shape, c: int, steps: seq<Step>, k: int)
    requires 0 <= c < |ns| && 0 <= k < |ns| && c != k
    requires c !in Ids(sl) && k !in Ids(sl)
    requires c !in StepsIds(steps) && k !in StepsIds(steps)
    ensures Frames(Swapped(ns, c, k), [InRight(sl, c)] + steps) ==
      [RightOf(Value(ns, sl), At(ns, c).color, At(ns, k).value)] + Frames(ns, steps)
  {
    var ns' := Swapped(ns, c, k);
    assert Value(ns', sl) == Value(ns, sl) by {
      SwappedFrame(ns, c, k, Ids(sl));
      ValueFrame(ns, ns', sl);
    }
    assert Frames(ns', steps) == Frames(ns, steps) by {
      SwappedFrame(ns, c, k, StepsIds(steps));
      FramesFrame(ns, ns', steps);
    }
    assert At(ns', c) == At(ns, c).(value := At(ns, k).value) by {
      SwappedAt(ns, c, k, c);
    }
    var rest := [InRight(sl, c)] + steps;
    assert rest[1..] == steps;
  }

  /** The child that takes the place of a node with at most one child. */
  function OnlyChild(s: Shape): Shape
    requires s.Knot?
  {
    if s.left.Knot? then s.left else s.right
  }

  /**
   * Removing the root `s`, which has at most one child: that child, if any,
   * is painted black and loses its parent, and is the whole tree.
   */
  lemma SpliceRoot(ns: seq<RBNode>, ns': seq<RBNode>, s: Shape)
    requires Links(ns, s, Null) && Distinct(s) && s.Knot? && (s.left.Empty? || s.right.Empty?)
    requires |ns'| == |ns|
    requires forall i | i != s.id && i != Id(OnlyChild(s)) :: At(ns', i) == At(ns, i)
    requires OnlyChild(s).Knot? ==>
      At(ns', OnlyChild(s).id) == At(ns, OnlyChild(s).id).(color := Black, parent := Null)
    ensures Links(ns', OnlyChild(s), Null) && Distinct(OnlyChild(s)) && s.id !in Ids(OnlyChild(s))
    ensures OnlyChild(s).Empty? ==> Value(ns', OnlyChild(s)) == Leaf
    ensures OnlyChild(s).Knot? ==>
      Value(ns, OnlyChild(s)).Node? && Value(ns', OnlyChild(s)) == Value(ns, OnlyChild(s)).(color := Black)
  {
    var c := OnlyChild(s);
    if c.Knot? {
      assert SameOn(ns, ns', Ids(c.left)) && SameOn(ns, ns', Ids(c.right));
      LinksFrame(ns, ns', c.left, c.id);
      LinksFrame(ns, ns', c.right, c.id);
      ValueFrame(ns, ns', c.left);
      ValueFrame(ns, ns', c.right);
    }
  }

  /**
   * Removing the node `s`, which has at most one child and a parent: the
   * parent's child pointer that held `s` now holds the child, and the child
   * takes `s`'s parent.  Everything else keeps its pointers, colour and value.
   */
  ghost predicate Spliced(ns: seq<RBNode>, ns': seq<RBNode>, s: Shape, steps: seq<Step>)
    requires s.Knot? && steps != []
  {
    && |ns'| == |ns|
    && (forall i | i != s.id && i != Id(OnlyChild(s)) && i != steps[0].id :: At(ns', i) == At(ns, i))
    && At(ns', steps[0].id) == Retarget(At(ns, steps[0].id), s.id, Id(OnlyChild(s)))
    && (OnlyChild(s).Knot? ==> At(ns', OnlyChild(s).id) == At(ns, OnlyChild(s).id).(parent := steps[0].id))
  }

  /** The store after Remove takes `cur` out below `parent`, its child `that` moving up. */
  function Bypassed(ns: seq<RBNode>, cur: int, parent: int, that: int): (r: seq<RBNode>)
    ensures |r| == |ns|
  {
    var n1 := Set(ns, parent, Retarget(At(ns, parent), cur, that));
    var n2 := if that != Null then Set(n1, that, At(n1, that).(parent := parent)) else n1;
    var n3 := Set(n2, cur, At(n2, cur).(parent := Null));
    var n4 := Set(n3, cur, At(n3, cur).(left := Null));
    Set(n4, cur, At(n4, cur).(right := Null))
  }

  /** Bypassing `s` below its parent is a splice, and it clears `s`'s pointers. */
  lemma BypassedSpliced(ns: seq<RBNode>, s: Shape, steps: seq<Step>)
    requires Links(ns, Graft(s, steps), Null) && Distinct(Graft(s, steps))
    requires s.Knot? && (s.left.Empty? || s.right.Empty?) && steps != []
    ensures var ns' := Bypassed(ns, s.id, steps[0].id, Id(OnlyChild(s)));
      && Spliced(ns, ns', s, steps)
      && At(ns', s.id) == At(ns, s.id).(parent := Null, left := Null, right := Null)
  {
    var c, p := OnlyChild(s), steps[0].id;
    View(ns, s, steps);
    LinksRange(ns, Graft(s, steps), Null);
    assert p in StepsIds(steps) && s.id != p;
    assert c.Knot? ==> c.id in Ids(s) && c.id != s.id && c.id != p;
  }

  /** After the splice the child hangs where `s` did, and `s` is no longer in the tree. */
  lemma SpliceInner(ns: seq<RBNode>, ns': seq<RBNode>, s: Shape, steps: seq<Step>)
    requires Links(ns, Graft(s, steps), Null) && Distinct(Graft(s, steps))
    requires s.Knot? && (s.left.Empty? || s.right.Empty?) && steps != []
    requires Spliced(ns, ns', s, steps)
    ensures Links(ns', Graft(OnlyChild(s), steps), Null) && Distinct(Graft(OnlyChild(s), steps))
    ensures Id(Graft(OnlyChild(s), steps)) == Id(Graft(s, steps))
    ensures s.id !in Ids(Graft(OnlyChild(s), steps))
  {
    var c, p := OnlyChild(s), steps[0].id;
    View(ns, s, steps);
    assert p in StepsIds(steps);
    assert Links(ns, c, s.id);
    assert SameOn(ns, ns', Ids(c) - {Id(c)});
    Reparent(ns, ns', c, s.id, p);
    assert SameOn(ns, ns', StepsIds(steps) - {p});
    RetargetChain(ns, ns', s.id, Id(c), steps);
    GraftLinks(ns', c, steps);
    GraftDistinct(c, steps);
    GraftTop(c, steps);
    GraftTop(s, steps);
  }

  /** The splice changes pointers only, so the tree is the child under the old frames. */
  lemma SpliceInnerValue(ns: seq<RBNode>, ns': seq<RBNode>, s: Shape, steps: seq<Step>)
    requires Links(ns, Graft(s, steps), Null) && Distinct(Graft(s, steps))
    requires s.Knot? && (s.left.Empty? || s.right.Empty?) && steps != []
    requires Spliced(ns, ns', s, steps)
    ensures Value(ns', Graft(OnlyChild(s), steps)) == Plug(Value(ns, OnlyChild(s)), Frames(ns, steps))
  {
    var c, p := OnlyChild(s), steps[0].id;
    View(ns, s, steps);
    assert p in StepsIds(steps);
    assert SamePayloadOn(ns, ns', Ids(c)) && SamePayloadOn(ns, ns', StepsIds(steps));
    ValueFrame(ns, ns', c);
    FramesFrame(ns, ns', steps);
    GraftValue(ns', c, steps);
  }
}
