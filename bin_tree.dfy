// Plain binary tree with shared-ownership children (include/tree/BinTree.h).
// A subtree reached through a shared pointer is never changed by the
// traversals (they are `const`), so a node is modelled as a value; the only
// state is the output vector the traversals append to.

module BinTree {

  /** A node and its two (possibly null) subtrees; `Nil` is the null pointer. */
  datatype Tree = Nil | Node(left: Tree, value: int, right: Tree)

  /** The value a visit of a node yields (the base class returns `_value`). */
  function Visit(t: Tree): int
    requires t.Node?
  {
    t.value
  }

  /** Number of nodes. */
  function Size(t: Tree): nat
  {
    match t
    case Nil => 0
    case Node(l, _, r) => Size(l) + 1 + Size(r)
  }

  /** The node values, each as often as it occurs. */
  function Values(t: Tree): multiset<int>
  {
    match t
    case Nil => multiset{}
    case Node(l, v, r) => Values(l) + multiset{v} + Values(r)
  }

  // ---------------------------------------------------------------------
  // The four orders, as sequence specifications.
  // ---------------------------------------------------------------------

  function PreOrder(t: Tree): seq<int>
  {
    match t
    case Nil => []
    case Node(l, v, r) => [v] + PreOrder(l) + PreOrder(r)
  }

  function InOrder(t: Tree): seq<int>
  {
    match t
    case Nil => []
    case Node(l, v, r) => InOrder(l) + [v] + InOrder(r)
  }

  function PostOrder(t: Tree): seq<int>
  {
    match t
    case Nil => []
    case Node(l, v, r) => PostOrder(l) + PostOrder(r) + [v]
  }

  /** The non-null children of a node, left before right, as the queue receives them. */
  function Children(t: Tree): seq<Tree>
  {
    match t
    case Nil => []
    case Node(l, _, r) => (if l.Node? then [l] else []) + (if r.Node? then [r] else [])
  }

  /** Total number of nodes in a forest (a queue of subtrees). */
  function SizeSum(q: seq<Tree>): nat
  {
    if q == [] then 0 else Size(q[0]) + SizeSum(q[1..])
  }

  lemma SizeSumAppend(a: seq<Tree>, b: seq<Tree>)
    ensures SizeSum(a + b) == SizeSum(a) + SizeSum(b)
  {
    if a == [] {
      assert a + b == b;
    } else {
      assert (a + b)[1..] == a[1..] + b;
      SizeSumAppend(a[1..], b);
    }
  }

  lemma SizeSumChildren(t: Tree)
    requires t.Node?
    ensures SizeSum(Children(t)) + 1 == Size(t)
  {
    var l, r := t.left, t.right;
    var a: seq<Tree> := if l.Node? then [l] else [];
    var b: seq<Tree> := if r.Node? then [r] else [];
    SizeSumAppend(a, b);
    assert SizeSum(a) == Size(l);
    assert SizeSum(b) == Size(r);
  }

  /**
   * The output of a first-in first-out queue run: pop the front, output its
   * value and push its non-null children at the back.  A null entry (only the
   * caller can supply one) outputs nothing.
   */
  function Bfs(q: seq<Tree>): seq<int>
    decreases SizeSum(q), |q|
  {
    if q == [] then []
    else if q[0].Nil? then Bfs(q[1..])
    else
      SizeSumAppend(q[1..], Children(q[0]));
      SizeSumChildren(q[0]);
      [q[0].value] + Bfs(q[1..] + Children(q[0]))
  }

  /** One step of the queue run, and the measure it decreases. */
  lemma BfsStep(q: seq<Tree>)
    requires q != [] && q[0].Node?
    ensures Bfs(q) == [q[0].value] + Bfs(q[1..] + Children(q[0]))
    ensures SizeSum(q[1..] + Children(q[0])) < SizeSum(q)
  {
    SizeSumAppend(q[1..], Children(q[0]));
    SizeSumChildren(q[0]);
  }

  lemma AppendAssoc<T>(a: seq<T>, b: seq<T>, c: seq<T>)
    ensures (a + b) + c == a + (b + c)
  {
  }

  /** Level order of a tree: the queue run started from the root alone. */
  function LevelOrder(t: Tree): seq<int>
  {
    Bfs([t])
  }

  // ---------------------------------------------------------------------
  // Independent reference for level order: level by level.
  // ---------------------------------------------------------------------

  /** The values of the non-null members of a forest, left to right. */
  function Roots(q: seq<Tree>): seq<int>
  {
    if q == [] then []
    else (if q[0].Node? then [q[0].value] else []) + Roots(q[1..])
  }

  /** The next level of a forest: all non-null children, left to right. */
  function Kids(q: seq<Tree>): seq<Tree>
  {
    if q == [] then [] else Children(q[0]) + Kids(q[1..])
  }

  lemma SizeSumKids(q: seq<Tree>)
    ensures SizeSum(Kids(q)) + |Roots(q)| == SizeSum(q)
  {
    if q != [] {
      SizeSumKids(q[1..]);
      SizeSumAppend(Children(q[0]), Kids(q[1..]));
      if q[0].Node? {
        SizeSumChildren(q[0]);
      }
    }
  }

  /** Output one level after another, each level left to right. */
  function Levels(q: seq<Tree>): seq<int>
    decreases SizeSum(q)
  {
    if Roots(q) == [] then []
    else
      SizeSumKids(q);
      Roots(q) + Levels(Kids(q))
  }

  /** Running the queue through a prefix `a` outputs a's roots and leaves b followed by a's children. */
  lemma {:induction false} BfsPrefix(a: seq<Tree>, b: seq<Tree>)
    ensures Bfs(a + b) == Roots(a) + Bfs(b + Kids(a))
    decreases |a|
  {
    if a == [] {
      assert a + b == b;
      assert b + Kids(a) == b;
    } else {
      var x := a[0];
      assert (a + b)[0] == x;
      assert (a + b)[1..] == a[1..] + b;
      if x.Nil? {
        assert Kids(a) == Children(x) + Kids(a[1..]) == Kids(a[1..]);
        assert Roots(a) == Roots(a[1..]);
        BfsPrefix(a[1..], b);
      } else {
        var rest, c := a[1..], b + Children(x);
        BfsStep(a + b);
        AppendAssoc(rest, b, Children(x));
        BfsPrefix(rest, c);
        assert Kids(a) == Children(x) + Kids(rest);
        AppendAssoc(b, Children(x), Kids(rest));
        assert Roots(a) == [x.value] + Roots(rest);
        AppendAssoc([x.value], Roots(rest), Bfs(b + Kids(a)));
      }
    }
  }

  /** The queue run outputs the forest one level at a time. */
  lemma {:induction false} BfsIsLevels(q: seq<Tree>)
    ensures Bfs(q) == Levels(q)
    decreases SizeSum(q)
  {
    BfsPrefix(q, []);
    assert q + [] == q;
    assert [] + Kids(q) == Kids(q);
    if Roots(q) == [] {
      NoRootsNoKids(q);
    } else {
      SizeSumKids(q);
      BfsIsLevels(Kids(q));
    }
  }

  lemma {:induction false} NoRootsNoKids(q: seq<Tree>)
    requires Roots(q) == []
    ensures Kids(q) == []
  {
    if q != [] {
      assert q[0].Nil?;
      NoRootsNoKids(q[1..]);
    }
  }

  // ---------------------------------------------------------------------
  // Properties of the traversals.
  // ---------------------------------------------------------------------

  /** Sum of the node values of a forest, as a multiset. */
  function ForestValues(q: seq<Tree>): multiset<int>
  {
    if q == [] then multiset{} else Values(q[0]) + ForestValues(q[1..])
  }

  lemma ForestValuesAppend(a: seq<Tree>, b: seq<Tree>)
    ensures ForestValues(a + b) == ForestValues(a) + ForestValues(b)
  {
    if a == [] {
      assert a + b == b;
    } else {
      assert (a + b)[1..] == a[1..] + b;
      ForestValuesAppend(a[1..], b);
    }
  }

  lemma ForestValuesChildren(t: Tree)
    requires t.Node?
    ensures ForestValues(Children(t)) + multiset{t.value} == Values(t)
  {
    var l, r := t.left, t.right;
    var a: seq<Tree> := if l.Node? then [l] else [];
    var b: seq<Tree> := if r.Node? then [r] else [];
    assert Children(t) == a + b;
    ForestValuesAppend(a, b);
    assert ForestValues(a) == Values(l) by {
      if l.Node? { assert a[1..] == []; }
    }
    assert ForestValues(b) == Values(r) by {
      if r.Node? { assert b[1..] == []; }
    }
    MultisetRotate(Values(l), Values(r), multiset{t.value});
  }

  lemma MultisetRotate(x: multiset<int>, y: multiset<int>, z: multiset<int>)
    ensures x + y + z == x + z + y
  {
    forall e ensures (x + y + z)[e] == (x + z + y)[e] {
      assert (x + y + z)[e] == x[e] + y[e] + z[e];
    }
  }

  /** The queue run outputs every value of the forest exactly once. */
  lemma {:induction false} BfsValues(q: seq<Tree>)
    ensures multiset(Bfs(q)) == ForestValues(q)
    decreases SizeSum(q), |q|
  {
    if q != [] {
      if q[0].Nil? {
        BfsValues(q[1..]);
      } else {
        SizeSumAppend(q[1..], Children(q[0]));
        SizeSumChildren(q[0]);
        BfsValues(q[1..] + Children(q[0]));
        ForestValuesAppend(q[1..], Children(q[0]));
        ForestValuesChildren(q[0]);
      }
    }
  }

  /** All four orders output exactly the node values, each as often as it occurs. */
  lemma {:induction false} TraversalsArePermutations(t: Tree)
    ensures multiset(PreOrder(t)) == Values(t)
    ensures multiset(InOrder(t)) == Values(t)
    ensures multiset(PostOrder(t)) == Values(t)
    ensures multiset(LevelOrder(t)) == Values(t)
  {
    DepthFirstValues(t);
    BfsValues([t]);
    assert ForestValues([t]) == Values(t) by {
      assert [t][1..] == [];
    }
  }

  lemma DepthFirstValues(t: Tree)
    ensures multiset(PreOrder(t)) == Values(t)
    ensures multiset(InOrder(t)) == Values(t)
    ensures multiset(PostOrder(t)) == Values(t)
  {
    PreOrderValues(t);
    InOrderValues(t);
    PostOrderValues(t);
  }

  lemma {:induction false} PreOrderValues(t: Tree)
    ensures multiset(PreOrder(t)) == Values(t)
  {
    if t.Node? {
      PreOrderValues(t.left);
      PreOrderValues(t.right);
      var l, v, r := Values(t.left), multiset{t.value}, Values(t.right);
      assert multiset(PreOrder(t)) == v + l + r;
      assert v + l + r == l + v + r;
    }
  }

  lemma {:induction false} InOrderValues(t: Tree)
    ensures multiset(InOrder(t)) == Values(t)
  {
    if t.Node? {
      InOrderValues(t.left);
      InOrderValues(t.right);
      assert multiset(InOrder(t)) == Values(t.left) + multiset{t.value} + Values(t.right);
    }
  }

  lemma {:induction false} PostOrderValues(t: Tree)
    ensures multiset(PostOrder(t)) == Values(t)
  {
    if t.Node? {
      PostOrderValues(t.left);
      PostOrderValues(t.right);
      var l, v, r := Values(t.left), multiset{t.value}, Values(t.right);
      assert multiset(PostOrder(t)) == l + r + v;
      MultisetRotate(l, v, r);
    }
  }

  lemma {:induction false} ValuesCount(t: Tree)
    ensures |Values(t)| == Size(t)
  {
    if t.Node? {
      ValuesCount(t.left);
      ValuesCount(t.right);
    }
  }

  /** Every order outputs one value per node. */
  lemma TraversalLengths(t: Tree)
    ensures |InOrder(t)| == Size(t)
    ensures |PreOrder(t)| == Size(t)
    ensures |PostOrder(t)| == Size(t)
    ensures |LevelOrder(t)| == Size(t)
  {
    ValuesCount(t);
    TraversalsArePermutations(t);
    assert |PreOrder(t)| == |multiset(PreOrder(t))|;
    assert |PostOrder(t)| == |multiset(PostOrder(t))|;
    assert |LevelOrder(t)| == |multiset(LevelOrder(t))|;
    assert |InOrder(t)| == |multiset(InOrder(t))|;
  }

  /** Pre-order and level order start with the root; post-order ends with it. */
  lemma RootPositions(t: Tree)
    requires t.Node?
    ensures PreOrder(t)[0] == t.value
    ensures LevelOrder(t)[0] == t.value
    ensures PostOrder(t)[|PostOrder(t)| - 1] == t.value
  {
  }

  /** Level order outputs the root, then each deeper level in turn, each level left to right. */
  lemma LevelOrderByLevels(t: Tree)
    requires t.Node?
    ensures LevelOrder(t) == [t.value] + Levels(Children(t))
  {
    BfsIsLevels([t]);
    assert Roots([t]) == [t.value];
    assert Kids([t]) == Children(t) by {
      assert [t][1..] == [];
    }
  }

  // ---------------------------------------------------------------------
  // Replacing a subtree (e.g. clearing both child links of some node).
  // ---------------------------------------------------------------------

  /** The subtree reached by following `path` (false = left, true = right). */
  function At(t: Tree, path: seq<bool>): Tree
  {
    if path == [] then t
    else if t.Nil? then Nil
    else At(if path[0] then t.right else t.left, path[1..])
  }

  /** t with the subtree at `path` replaced by s (no change if the path leaves the tree). */
  function ReplaceAt(t: Tree, path: seq<bool>, s: Tree): Tree
  {
    if path == [] then s
    else if t.Nil? then Nil
    else if path[0] then Node(t.left, t.value, ReplaceAt(t.right, path[1..], s))
    else Node(ReplaceAt(t.left, path[1..], s), t.value, t.right)
  }

  /** Clearing both child links of the node at `path`. */
  function DetachChildren(t: Tree, path: seq<bool>): Tree
    requires At(t, path).Node?
  {
    ReplaceAt(t, path, Node(Nil, At(t, path).value, Nil))
  }

  lemma {:induction false} ReplaceValues(t: Tree, path: seq<bool>, s: Tree)
    requires At(t, path).Node?
    ensures Values(ReplaceAt(t, path, s)) + Values(At(t, path)) == Values(t) + Values(s)
  {
    if path != [] {
      var l, v, r := t.left, t.value, t.right;
      if path[0] {
        ReplaceValues(r, path[1..], s);
        var r' := ReplaceAt(r, path[1..], s);
        assert Values(ReplaceAt(t, path, s)) == Values(l) + multiset{v} + Values(r');
        ShiftRight(Values(l), multiset{v}, Values(r'), Values(At(r, path[1..])), Values(r), Values(s));
      } else {
        ReplaceValues(l, path[1..], s);
        var l' := ReplaceAt(l, path[1..], s);
        assert Values(ReplaceAt(t, path, s)) == Values(l') + multiset{v} + Values(r);
        ShiftLeft(Values(l'), multiset{v}, Values(r), Values(At(l, path[1..])), Values(l), Values(s));
      }
    }
  }

  /**
   * Detaching the children of a node removes exactly the values of those two
   * subtrees from every one of the four outputs.
   */
  lemma DetachRemovesSubtrees(t: Tree, path: seq<bool>)
    requires At(t, path).Node?
    ensures var gone := Values(At(t, path).left) + Values(At(t, path).right);
      var t' := DetachChildren(t, path);
      && gone <= multiset(InOrder(t))
      && multiset(InOrder(t')) == multiset(InOrder(t)) - gone
      && multiset(PreOrder(t')) == multiset(PreOrder(t)) - gone
      && multiset(PostOrder(t')) == multiset(PostOrder(t)) - gone
      && multiset(LevelOrder(t')) == multiset(LevelOrder(t)) - gone
  {
    var n := At(t, path);
    var t' := DetachChildren(t, path);
    ReplaceValues(t, path, Node(Nil, n.value, Nil));
    assert Values(Node(Nil, n.value, Nil)) == multiset{n.value};
    assert Values(n) == Values(n.left) + multiset{n.value} + Values(n.right);
    DetachArith(Values(t'), Values(t), Values(n.left), multiset{n.value}, Values(n.right));
    TraversalsArePermutations(t);
    TraversalsArePermutations(t');
  }

  lemma ShiftRight(l: multiset<int>, m: multiset<int>, r': multiset<int>, x: multiset<int>, r: multiset<int>, s: multiset<int>)
    requires r' + x == r + s
    ensures l + m + r' + x == l + m + r + s
  {
    forall z ensures (l + m + r' + x)[z] == (l + m + r + s)[z] {
      assert (r' + x)[z] == (r + s)[z];
    }
  }

  lemma ShiftLeft(l': multiset<int>, m: multiset<int>, r: multiset<int>, x: multiset<int>, l: multiset<int>, s: multiset<int>)
    requires l' + x == l + s
    ensures l' + m + r + x == l + m + r + s
  {
    forall z ensures (l' + m + r + x)[z] == (l + m + r + s)[z] {
      assert (l' + x)[z] == (l + s)[z];
    }
  }

  lemma DetachArith(a: multiset<int>, b: multiset<int>, l: multiset<int>, m: multiset<int>, r: multiset<int>)
    requires a + (l + m + r) == b + m
    ensures l + r <= b && a == b - (l + r)
  {
    forall z ensures (l + r)[z] <= b[z] && a[z] == (b - (l + r))[z] {
      assert (a + (l + m + r))[z] == (b + m)[z];
    }
  }

  // ---------------------------------------------------------------------
  // The traversal methods: append to an optional output vector.
  // ---------------------------------------------------------------------

  /** The output vector (`std::vector<T>`), only ever appended to. */
  class Vector {
    var elems: seq<int>

    constructor()
      ensures elems == []
    {
      elems := [];
    }

    method PushBack(x: int)
      modifies this
      ensures elems == old(elems) + [x]
    {
      elems := elems + [x];
    }
  }

  /** `t.PreOrder(out)`: with out null nothing is written. */
  method PushPreOrder(t: Tree, out: Vector?)
    requires t.Node?
    modifies out
    ensures out != null ==> out.elems == old(out.elems) + PreOrder(t)
    decreases t
  {
    var v := Visit(t);
    if out != null { out.PushBack(v); }
    if t.left.Node? { PushPreOrder(t.left, out); }
    if t.right.Node? { PushPreOrder(t.right, out); }
  }

  /** `t.InOrder(out)`. */
  method PushInOrder(t: Tree, out: Vector?)
    requires t.Node?
    modifies out
    ensures out != null ==> out.elems == old(out.elems) + InOrder(t)
    decreases t
  {
    if t.left.Node? { PushInOrder(t.left, out); }
    var v := Visit(t);
    if out != null { out.PushBack(v); }
    if t.right.Node? { PushInOrder(t.right, out); }
  }

  /** `t.PostOrder(out)`. */
  method PushPostOrder(t: Tree, out: Vector?)
    requires t.Node?
    modifies out
    ensures out != null ==> out.elems == old(out.elems) + PostOrder(t)
    decreases t
  {
    if t.left.Node? { PushPostOrder(t.left, out); }
    if t.right.Node? { PushPostOrder(t.right, out); }
    var v := Visit(t);
    if out != null { out.PushBack(v); }
  }

  /** `t.LevelOrder(out)`: a FIFO queue seeded with the node itself. */
  method PushLevelOrder(t: Tree, out: Vector?)
    requires t.Node?
    modifies out
    ensures out != null ==> out.elems == old(out.elems) + LevelOrder(t)
  {
    var q: seq<Tree> := [t];
    while q != []
      invariant forall i :: 0 <= i < |q| ==> q[i].Node?
      invariant out != null ==> old(out.elems) + LevelOrder(t) == out.elems + Bfs(q)
      decreases SizeSum(q), |q|
    {
      ghost var q0 := q;
      var cur := q[0];
      q := q[1..];
      ghost var e0 := if out != null then out.elems else [];
      var v := Visit(cur);
      if out != null { out.PushBack(v); }
      if cur.left.Node? { q := q + [cur.left]; }
      if cur.right.Node? { q := q + [cur.right]; }
      assert q == q0[1..] + Children(cur);
      BfsStep(q0);
      if out != null {
        AppendAssoc(e0, [v], Bfs(q));
      }
    }
  }

  // ---------------------------------------------------------------------
  // The tree of the traversal test, before and after clearing node 6's links.
  // ---------------------------------------------------------------------

  function Leaf(v: int): Tree
  {
    Node(Nil, v, Nil)
  }

  function SampleTree(): Tree
  {
    Node(Node(Leaf(1), 2, Leaf(3)), 4, Node(Leaf(5), 6, Leaf(7)))
  }

  lemma RootsKidsAppend(a: seq<Tree>, b: seq<Tree>)
    ensures Roots(a + b) == Roots(a) + Roots(b)
    ensures Kids(a + b) == Kids(a) + Kids(b)
  {
    RootsAppend(a, b);
    KidsAppend(a, b);
  }

  lemma {:induction false} RootsAppend(a: seq<Tree>, b: seq<Tree>)
    ensures Roots(a + b) == Roots(a) + Roots(b)
  {
    if a == [] {
      assert a + b == b;
    } else {
      assert (a + b)[1..] == a[1..] + b;
      RootsAppend(a[1..], b);
      var h: seq<int> := if a[0].Node? then [a[0].value] else [];
      assert Roots(a + b) == h + Roots(a[1..] + b);
      assert h + (Roots(a[1..]) + Roots(b)) == (h + Roots(a[1..])) + Roots(b);
    }
  }

  lemma {:induction false} KidsAppend(a: seq<Tree>, b: seq<Tree>)
    ensures Kids(a + b) == Kids(a) + Kids(b)
  {
    if a == [] {
      assert a + b == b;
    } else {
      assert (a + b)[1..] == a[1..] + b;
      KidsAppend(a[1..], b);
      var h := Children(a[0]);
      assert Kids(a + b) == h + Kids(a[1..] + b);
      assert h + (Kids(a[1..]) + Kids(b)) == (h + Kids(a[1..])) + Kids(b);
    }
  }

  lemma Pair(x: Tree, y: Tree)
    ensures Roots([x] + [y]) == Roots([x]) + Roots([y])
    ensures Kids([x] + [y]) == Children(x) + Children(y)
    ensures Roots([x]) == (if x.Node? then [x.value] else [])
    ensures Roots([y]) == (if y.Node? then [y.value] else [])
  {
    RootsKidsAppend([x], [y]);
    assert [x][1..] == [] && [y][1..] == [];
  }

  lemma SampleDepthFirst()
    ensures PreOrder(SampleTree()) == [4, 2, 1, 3, 6, 5, 7]
    ensures InOrder(SampleTree()) == [1, 2, 3, 4, 5, 6, 7]
    ensures PostOrder(SampleTree()) == [1, 3, 2, 5, 7, 6, 4]
  {
    var t := SampleTree();
    assert PreOrder(t) == [4, 2, 1, 3, 6, 5, 7] by {
      assert PreOrder(t.left) == [2, 1, 3] && PreOrder(t.right) == [6, 5, 7];
    }
    assert InOrder(t) == [1, 2, 3, 4, 5, 6, 7] by {
      assert InOrder(t.left) == [1, 2, 3] && InOrder(t.right) == [5, 6, 7];
    }
    assert PostOrder(t) == [1, 3, 2, 5, 7, 6, 4] by {
      assert PostOrder(t.left) == [1, 3, 2] && PostOrder(t.right) == [5, 7, 6];
    }
  }

  lemma SampleLevelOrder()
    ensures LevelOrder(SampleTree()) == [4, 2, 6, 1, 3, 5, 7]
  {
    var t := SampleTree();
    assert Children(t) == [t.left] + [t.right];
    SampleLevels();
    LevelOrderByLevels(t);
  }

  lemma SampleLevels()
    ensures Levels([SampleTree().left] + [SampleTree().right]) == [2, 6, 1, 3, 5, 7]
  {
    var t := SampleTree();
    var level1 := [t.left] + [t.right];
    var level2 := ([Leaf(1)] + [Leaf(3)]) + ([Leaf(5)] + [Leaf(7)]);
    SampleBottomLevel();
    Pair(t.left, t.right);
    assert Roots(level1) == [2, 6];
    assert Kids(level1) == level2;
  }

  lemma SampleBottomLevel()
    ensures Levels(([Leaf(1)] + [Leaf(3)]) + ([Leaf(5)] + [Leaf(7)])) == [1, 3, 5, 7]
  {
    var a, b := [Leaf(1)] + [Leaf(3)], [Leaf(5)] + [Leaf(7)];
    assert Roots(a) == [1, 3] && Kids(a) == [] by {
      Pair(Leaf(1), Leaf(3));
    }
    assert Roots(b) == [5, 7] && Kids(b) == [] by {
      Pair(Leaf(5), Leaf(7));
    }
    var q := a + b;
    RootsKidsAppend(a, b);
    assert Roots(q) == [1, 3, 5, 7] && Kids(q) == [];
    assert Levels(Kids(q)) == [];
  }

  /** A single node, as the test prints the leaf 1 on its own. */
  lemma LeafOrders(v: int)
    ensures PreOrder(Leaf(v)) == [v] && InOrder(Leaf(v)) == [v]
    ensures PostOrder(Leaf(v)) == [v] && LevelOrder(Leaf(v)) == [v]
  {
    assert Children(Leaf(v)) == [];
    assert Bfs([Leaf(v)]) == [v] by {
      assert [Leaf(v)][1..] + Children(Leaf(v)) == [];
    }
  }

  function DetachedSample(): Tree
  {
    Node(Node(Leaf(1), 2, Leaf(3)), 4, Leaf(6))
  }

  lemma SampleDetached()
    ensures DetachChildren(SampleTree(), [true]) == DetachedSample()
    ensures PreOrder(DetachedSample()) == [4, 2, 1, 3, 6]
    ensures InOrder(DetachedSample()) == [1, 2, 3, 4, 6]
    ensures PostOrder(DetachedSample()) == [1, 3, 2, 6, 4]
  {
  }

  lemma SampleDetachedLevelOrder()
    ensures LevelOrder(DetachedSample()) == [4, 2, 6, 1, 3]
  {
    var t := DetachedSample();
    var level1 := [t.left] + [t.right];
    var level2 := [Leaf(1)] + [Leaf(3)];
    assert Levels(level2) == [1, 3] by {
      Pair(Leaf(1), Leaf(3));
      assert Roots(level2) == [1, 3];
      assert Kids(level2) == [];
      assert Levels([]) == [];
    }
    assert Levels(level1) == [2, 6, 1, 3] by {
      Pair(t.left, t.right);
      assert Roots(level1) == [2, 6];
      assert Kids(level1) == level2;
    }
    assert Children(t) == level1;
    LevelOrderByLevels(t);
  }
}
