/**
 * Value model of the red-black tree in include/tree/RBTree.h.
 *
 * A tree is a datatype whose `Leaf` stands for a null link.  The parent
 * back-links of the C++ nodes are modelled by a zipper: a focused subtree
 * together with the path of frames from its parent up to the root
 * (innermost frame first).  The search-tree order is stated on the in-order
 * sequence, and the red-black invariants as three predicates.
 */
module RedBlack {

  datatype Option<T> = None | Some(value: T)

  /** RBColor. */
  datatype Color = Black | Red

  /** A subtree; `Leaf` is a null `RBTree` pointer. */
  datatype Tree = Leaf | Node(color: Color, left: Tree, value: int, right: Tree)

  /** IsBlack: a null link counts as black. */
  predicate IsBlack(t: Tree) { t.Leaf? || t.color == Black }

  /** IsRed is the negation of IsBlack. */
  predicate IsRed(t: Tree) { !IsBlack(t) }

  /** The colour a link has for the red-black rules (null is black). */
  function ColorOf(t: Tree): (c: Color)
    ensures c == Red <==> IsRed(t)
  {
    if t.Leaf? then Black else t.color
  }

  /** RBTreeNode::IsLeaf: neither child link is set. */
  predicate IsLeafNode(t: Tree)
    requires t.Node?
  {
    t.left.Leaf? && t.right.Leaf?
  }

  function InOrder(t: Tree): seq<int>
  {
    match t
    case Leaf => []
    case Node(_, l, v, r) => InOrder(l) + [v] + InOrder(r)
  }

  /** The colours of the nodes, listed in in-order. */
  function ColorsInOrder(t: Tree): seq<Color>
  {
    match t
    case Leaf => []
    case Node(c, l, _, r) => ColorsInOrder(l) + [c] + ColorsInOrder(r)
  }

  ghost predicate Sorted(s: seq<int>)
  {
    forall i, j | 0 <= i < j < |s| :: s[i] <= s[j]
  }

  ghost predicate StrictlySorted(s: seq<int>)
  {
    forall i, j | 0 <= i < j < |s| :: s[i] < s[j]
  }

  lemma StrictlySortedIsSorted(s: seq<int>)
    requires StrictlySorted(s)
    ensures Sorted(s)
  {
  }

  /**
   * The search-tree order.  Insert sends ties to the left, but rotations may
   * later move an equal value into a right subtree, so with duplicates the
   * order is exactly "the in-order sequence is non-decreasing"; without
   * duplicates it is strictly increasing.
   */
  ghost predicate Ordered(t: Tree, allowDup: bool)
  {
    if allowDup then Sorted(InOrder(t)) else StrictlySorted(InOrder(t))
  }

  /** No red node has a red child. */
  predicate NoRedRed(t: Tree)
  {
    match t
    case Leaf => true
    case Node(c, l, _, r) =>
      (c == Red ==> IsBlack(l) && IsBlack(r)) && NoRedRed(l) && NoRedRed(r)
  }

  function Weight(c: Color): nat
  {
    if c == Black then 1 else 0
  }

  /** Number of black nodes on the leftmost path, the node itself included. */
  function BlackHeight(t: Tree): nat
  {
    match t
    case Leaf => 0
    case Node(c, l, _, _) => Weight(c) + BlackHeight(l)
  }

  /** Both subtrees of every node have the same black height. */
  predicate BlackBalanced(t: Tree)
  {
    match t
    case Leaf => true
    case Node(_, l, _, r) =>
      BlackHeight(l) == BlackHeight(r) && BlackBalanced(l) && BlackBalanced(r)
  }

  /** The red-black invariants: black root, no red-red edge, uniform black height. */
  predicate IsRedBlack(t: Tree)
  {
    IsBlack(t) && NoRedRed(t) && BlackBalanced(t)
  }

  /** Everything the tree must satisfy before and after every public operation. */
  ghost predicate Valid(t: Tree, allowDup: bool)
  {
    IsRedBlack(t) && Ordered(t, allowDup)
  }

  /** The black counts of all root-to-null paths. */
  function BlackCounts(t: Tree): set<nat>
  {
    match t
    case Leaf => {0}
    case Node(c, l, _, r) => set k | k in BlackCounts(l) + BlackCounts(r) :: Weight(c) + k
  }

  lemma {:induction false} BlackHeightIsACount(t: Tree)
    ensures BlackHeight(t) in BlackCounts(t)
  {
    match t
    case Leaf =>
    case Node(c, l, _, r) =>
      BlackHeightIsACount(l);
      assert BlackHeight(l) in BlackCounts(l) + BlackCounts(r);
  }

  /** "Every path has the same black height" is what BlackBalanced states. */
  lemma {:induction false} BalancedIffUniformPaths(t: Tree)
    ensures BlackBalanced(t) <==> BlackCounts(t) == {BlackHeight(t)}
  {
    match t
    case Leaf =>
    case Node(c, l, _, r) =>
      BalancedIffUniformPaths(l);
      BalancedIffUniformPaths(r);
      BlackHeightIsACount(l);
      BlackHeightIsACount(r);
      var w := Weight(c);
      if BlackBalanced(t) {
        assert BlackCounts(l) + BlackCounts(r) == {BlackHeight(l)};
        assert BlackCounts(t) == {w + BlackHeight(l)};
      }
      if BlackCounts(t) == {BlackHeight(t)} {
        forall k | k in BlackCounts(l) + BlackCounts(r)
          ensures k == BlackHeight(l)
        {
          assert w + k in BlackCounts(t);
        }
        assert w + BlackHeight(r) in BlackCounts(t);
        assert BlackCounts(l) == {BlackHeight(l)};
        assert BlackCounts(r) == {BlackHeight(r)};
      }
  }

  /** Number of nodes on the longest root-to-null path. */
  function Height(t: Tree): nat
  {
    match t
    case Leaf => 0
    case Node(_, l, _, r) => 1 + (if Height(l) < Height(r) then Height(r) else Height(l))
  }

  function Size(t: Tree): nat
  {
    match t
    case Leaf => 0
    case Node(_, l, _, r) => 1 + Size(l) + Size(r)
  }

  function Pow2(n: nat): nat
  {
    if n == 0 then 1 else 2 * Pow2(n - 1)
  }

  /**
   * Under the colour rules a subtree is at most twice its black height
   * tall (one more when its root is red), and holds at least
   * 2^(black height) - 1 nodes.
   */
  lemma {:induction false} HeightBoundSub(t: Tree)
    requires NoRedRed(t) && BlackBalanced(t)
    ensures Height(t) <= 2 * BlackHeight(t) + (if IsRed(t) then 1 else 0)
    ensures Size(t) + 1 >= Pow2(BlackHeight(t))
  {
    match t
    case Leaf =>
    case Node(c, l, _, r) =>
      HeightBoundSub(l);
      HeightBoundSub(r);
      assert Pow2(BlackHeight(l) + 1) == 2 * Pow2(BlackHeight(l));
  }

  /**
   * The balance the invariants buy: a red-black tree is at most twice its
   * black height tall, and its black height is logarithmic in its size.
   */
  lemma HeightBound(t: Tree)
    requires IsRedBlack(t)
    ensures Height(t) <= 2 * BlackHeight(t)
    ensures Size(t) + 1 >= Pow2(BlackHeight(t))
  {
    HeightBoundSub(t);
  }

  // ---------------------------------------------------------------- rotations

  /** LeftRotate: the right child `that` is promoted over `self`; colours travel with their nodes. */
  function RotateLeft(t: Tree): (r: Tree)
    requires t.Node? && t.right.Node?
    ensures r.Node? && r.left.Node?
    ensures InOrder(r) == InOrder(t)
    ensures ColorsInOrder(r) == ColorsInOrder(t)
  {
    var that := t.right;
    Node(that.color, Node(t.color, t.left, t.value, that.left), that.value, that.right)
  }

  /** RightRotate: the mirror image of RotateLeft. */
  function RotateRight(t: Tree): (r: Tree)
    requires t.Node? && t.left.Node?
    ensures r.Node? && r.right.Node?
    ensures InOrder(r) == InOrder(t)
    ensures ColorsInOrder(r) == ColorsInOrder(t)
  {
    var that := t.left;
    Node(that.color, that.left, that.value, Node(t.color, that.right, t.value, t.right))
  }

  /** The two rotations on the same top undo each other. */
  lemma RotationsInverse(t: Tree)
    ensures t.Node? && t.right.Node? ==> RotateRight(RotateLeft(t)) == t
    ensures t.Node? && t.left.Node? ==> RotateLeft(RotateRight(t)) == t
  {
  }

  /** Recolouring a node does not change the in-order sequence. */
  lemma RecolorInOrder(t: Tree, c: Color)
    requires t.Node?
    ensures InOrder(t.(color := c)) == InOrder(t)
  {
  }

  // ------------------------------------------------------- the parent chain

  /**
   * One step of the parent chain: the focus is the left (LeftOf) or right
   * (RightOf) child of a node with the given colour and value, whose other
   * child is the sibling.
   */
  datatype Frame =
    | LeftOf(color: Color, value: int, right: Tree)
    | RightOf(left: Tree, color: Color, value: int)

  function Sibling(fr: Frame): Tree
  {
    match fr
    case LeftOf(_, _, r) => r
    case RightOf(l, _, _) => l
  }

  /** The parent node, rebuilt around the focus. */
  function Wrap(f: Tree, fr: Frame): (r: Tree)
    ensures r.Node? && r.color == fr.color && r.value == fr.value
  {
    match fr
    case LeftOf(c, v, r) => Node(c, f, v, r)
    case RightOf(l, c, v) => Node(c, l, v, f)
  }

  /** The whole tree: the focus replaced at its position under the path. */
  function Plug(f: Tree, path: seq<Frame>): Tree
    decreases |path|
  {
    if path == [] then f else Plug(Wrap(f, path[0]), path[1..])
  }

  /** The values that come before the focus in in-order. */
  function Before(path: seq<Frame>): seq<int>
    decreases |path|
  {
    if path == [] then []
    else
      Before(path[1..]) + match path[0]
        case LeftOf(_, _, _) => []
        case RightOf(l, _, v) => InOrder(l) + [v]
  }

  /** The values that come after the focus in in-order. */
  function After(path: seq<Frame>): seq<int>
    decreases |path|
  {
    if path == [] then []
    else
      (match path[0]
        case LeftOf(_, v, r) => [v] + InOrder(r)
        case RightOf(_, _, _) => []) + After(path[1..])
  }

  lemma {:induction false} PlugInOrder(f: Tree, path: seq<Frame>)
    ensures InOrder(Plug(f, path)) == Before(path) + InOrder(f) + After(path)
    decreases |path|
  {
    if path != [] {
      PlugInOrder(Wrap(f, path[0]), path[1..]);
    }
  }

  lemma {:induction false} PlugAppend(f: Tree, p1: seq<Frame>, p2: seq<Frame>)
    ensures Plug(f, p1 + p2) == Plug(Plug(f, p1), p2)
    decreases |p1|
  {
    if p1 == [] {
      assert p1 + p2 == p2;
    } else {
      assert (p1 + p2)[1..] == p1[1..] + p2;
      PlugAppend(Wrap(f, p1[0]), p1[1..], p2);
    }
  }

  lemma BeforeAfterAppend(p1: seq<Frame>, p2: seq<Frame>)
    ensures Before(p1 + p2) == Before(p2) + Before(p1)
    ensures After(p1 + p2) == After(p1) + After(p2)
  {
    BeforeAppend(p1, p2);
    AfterAppend(p1, p2);
  }

  lemma {:induction false} BeforeAppend(p1: seq<Frame>, p2: seq<Frame>)
    ensures Before(p1 + p2) == Before(p2) + Before(p1)
    decreases |p1|
  {
    if p1 == [] {
      assert p1 + p2 == p2;
    } else {
      var p := p1 + p2;
      assert p[1..] == p1[1..] + p2 && p[0] == p1[0];
      var x := Before(p)[|Before(p[1..])|..];
      assert Before(p) == Before(p[1..]) + x && Before(p1) == Before(p1[1..]) + x;
      BeforeAppend(p1[1..], p2);
      Assoc(Before(p2), Before(p1[1..]), x);
    }
  }

  lemma {:induction false} AfterAppend(p1: seq<Frame>, p2: seq<Frame>)
    ensures After(p1 + p2) == After(p1) + After(p2)
    decreases |p1|
  {
    if p1 == [] {
      assert p1 + p2 == p2;
    } else {
      var p := p1 + p2;
      assert p[1..] == p1[1..] + p2 && p[0] == p1[0];
      var x := After(p)[..|After(p)| - |After(p[1..])|];
      assert After(p) == x + After(p[1..]) && After(p1) == x + After(p1[1..]);
      AfterAppend(p1[1..], p2);
      Assoc(x, After(p1[1..]), After(p2));
    }
  }

  lemma Assoc<T>(a: seq<T>, b: seq<T>, c: seq<T>)
    ensures a + (b + c) == (a + b) + c
  {
  }

  /** The root of a plugged tree is the outermost frame's node. */
  lemma {:induction false} PlugTop(f: Tree, path: seq<Frame>)
    requires path != []
    ensures Plug(f, path).Node? && Plug(f, path).color == path[|path| - 1].color
    decreases |path|
  {
    if |path| > 1 {
      PlugTop(Wrap(f, path[0]), path[1..]);
    }
  }

  /** The outermost frame (the root) is black, when there is one. */
  predicate TopBlack(path: seq<Frame>)
  {
    path != [] ==> path[|path| - 1].color == Black
  }

  /**
   * The frames above a focus of black height h whose colour is c fit the
   * red-black rules: every sibling is a valid subtree of the right black
   * height, and no red frame sits on a red focus or has a red sibling.
   */
  predicate Fits(path: seq<Frame>, h: nat, c: Color)
    decreases |path|
  {
    path == [] ||
    var fr := path[0];
    var sib := Sibling(fr);
    && NoRedRed(sib) && BlackBalanced(sib) && BlackHeight(sib) == h
    && (fr.color == Red ==> c == Black && IsBlack(sib))
    && Fits(path[1..], h + Weight(fr.color), fr.color)
  }

  /** A path that takes a red focus also takes a black one. */
  lemma FitsBlack(path: seq<Frame>, h: nat)
    requires Fits(path, h, Red)
    ensures Fits(path, h, Black)
  {
  }

  /** Plugging a valid focus into fitting frames gives a red-black tree. */
  lemma {:induction false} PlugRedBlack(f: Tree, path: seq<Frame>)
    requires NoRedRed(f) && BlackBalanced(f)
    requires Fits(path, BlackHeight(f), ColorOf(f))
    requires if path == [] then IsBlack(f) else TopBlack(path)
    ensures IsRedBlack(Plug(f, path))
    decreases |path|
  {
    if path != [] {
      var w := Wrap(f, path[0]);
      assert BlackHeight(w) == BlackHeight(f) + Weight(path[0].color);
      if |path| > 1 {
        PlugRedBlack(w, path[1..]);
      }
    }
  }

  /** A sorted sequence around a pivot: both sides sorted, and bounded by the pivot. */
  lemma SortedSplit(a: seq<int>, w: int, b: seq<int>)
    requires Sorted(a + [w] + b)
    ensures Sorted(a) && Sorted(b)
    ensures forall x | x in a :: x <= w
    ensures forall x | x in b :: w <= x
  {
    var s := a + [w] + b;
    forall i | 0 <= i < |a| ensures a[i] <= w { assert a[i] == s[i] && w == s[|a|]; }
    forall i | 0 <= i < |b| ensures w <= b[i] { assert b[i] == s[|a| + 1 + i] && w == s[|a|]; }
    forall i, j | 0 <= i < j < |b| ensures b[i] <= b[j] { assert b[i] == s[|a| + 1 + i] && b[j] == s[|a| + 1 + j]; }
    forall i, j | 0 <= i < j < |a| ensures a[i] <= a[j] { assert a[i] == s[i] && a[j] == s[j]; }
  }

  /** Conversely, any position of a red-black tree has a valid focus and fitting frames. */
  lemma {:induction false} SplitRedBlack(f: Tree, path: seq<Frame>)
    requires IsRedBlack(Plug(f, path))
    ensures NoRedRed(f) && BlackBalanced(f)
    ensures Fits(path, BlackHeight(f), ColorOf(f))
    ensures TopBlack(path)
    decreases |path|
  {
    if path != [] {
      var w := Wrap(f, path[0]);
      SplitRedBlack(w, path[1..]);
      PlugTop(f, path);
      assert BlackHeight(w) == BlackHeight(f) + Weight(path[0].color);
    }
  }

  // ------------------------------------------------------------------ Search

  /**
   * Search, keeping the parent chain: walk down from the root, stop at the
   * first node holding the value, go left when the value is smaller and
   * right otherwise.
   */
  function Locate(t: Tree, v: int, path: seq<Frame>): (r: Option<(Tree, seq<Frame>)>)
    ensures r.Some? ==> r.value.0.Node? && r.value.0.value == v
    ensures r.Some? ==> Plug(r.value.0, r.value.1) == Plug(t, path)
  {
    match t
    case Leaf => None
    case Node(c, l, w, r) =>
      if v == w then Some((t, path))
      else if v < w then Locate(l, v, [LeftOf(c, w, r)] + path)
      else Locate(r, v, [RightOf(l, c, w)] + path)
  }

  /** Search: the first node on the search path that holds the value, if any. */
  function Search(t: Tree, v: int): (r: Option<Tree>)
    ensures r.Some? ==> r.value.Node? && r.value.value == v
  {
    match Locate(t, v, [])
    case None => None
    case Some((n, _)) => Some(n)
  }

  /** In an ordered tree the search finds the value exactly when it is stored. */
  lemma {:induction false} LocateFinds(t: Tree, v: int, path: seq<Frame>)
    requires Sorted(InOrder(t))
    ensures Locate(t, v, path).Some? <==> v in InOrder(t)
  {
    match t
    case Leaf =>
    case Node(c, l, w, r) =>
      SortedSplit(InOrder(l), w, InOrder(r));
      if v < w {
        LocateFinds(l, v, [LeftOf(c, w, r)] + path);
      } else if v > w {
        LocateFinds(r, v, [RightOf(l, c, w)] + path);
      }
  }

  lemma SearchCorrect(t: Tree, v: int)
    requires Sorted(InOrder(t))
    ensures Search(t, v).Some? <==> v in InOrder(t)
  {
    LocateFinds(t, v, []);
  }
}
