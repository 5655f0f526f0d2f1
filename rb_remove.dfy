/**
 * Value model of Remove and __Remove_Adjust (include/tree/RBTree.h:401-590)
 * and the proofs that removal keeps the search-tree order and the red-black
 * invariants and takes out exactly one occurrence of the value.
 *
 * __Remove_Adjust never changes the node it starts from: it recolours and
 * rotates the nodes above it.  In the zipper this reads as "the focus stays,
 * the path above it is rebuilt", so RemoveFix returns the new path.
 */
module RedBlackRemove {
  import opened RedBlack

  // --------------------------------------------------------- __Remove_Adjust

  /**
   * __Remove_Adjust on a black node `f` whose parent chain is `path`.  At the
   * root there is nothing to do.  Otherwise, when the sibling is red (case 1)
   * the parent turns red, the sibling black, and the parent is rotated
   * towards `f`, after which the old sibling's inner child is the new
   * sibling; the black-sibling cases follow in FixLeft / FixRight.
   *
   * The frames must fit a black focus of `f`'s black height: that is what
   * the source relies on for its `sib != nullptr` assertion.
   */
  function RemoveFix(f: Tree, path: seq<Frame>, ghost h: nat): (r: seq<Frame>)
    requires f.Node? && f.color == Black && h >= 1
    requires Fits(path, h, Black)
    ensures path == [] ==> r == []
    decreases |path|, 2
  {
    if path == [] then []
    else
      match path[0]
      case LeftOf(pc, pv, sib) =>
        if IsRed(sib) then
          var top := RotateLeft(Node(Red, f, pv, sib.(color := Black)));
          FixLeft(f, Red, pv, top.left.right, [LeftOf(top.color, top.value, top.right)] + path[1..], h)
        else
          FixLeft(f, pc, pv, sib, path[1..], h)
      case RightOf(sib, pc, pv) =>
        if IsRed(sib) then
          var top := RotateRight(Node(Red, sib.(color := Black), pv, f));
          FixRight(top.right.left, Red, pv, f, [RightOf(top.left, top.color, top.value)] + path[1..], h)
        else
          FixRight(sib, pc, pv, f, path[1..], h)
  }

  /**
   * The black-sibling cases when `f` is the left child of a node coloured
   * `pc` holding `pv`, whose right child `sib` is black and not null.
   * Case 3 (near cousin red, far cousin black): the near cousin turns black,
   * the sibling red, and the sibling is rotated right, which leads to case 2.
   * Case 2 (far cousin red): the far cousin turns black, the sibling takes
   * the parent's colour, the parent turns black and is rotated left; done.
   * Case 4 (both cousins black): the sibling turns red; a red parent turns
   * black and that is all (4.1), a black parent is adjusted in turn (4.2).
   */
  function FixLeft(f: Tree, pc: Color, pv: int, sib: Tree, upper: seq<Frame>, ghost h: nat): (r: seq<Frame>)
    requires f.Node? && f.color == Black && h >= 1
    requires sib.Node? && sib.color == Black
    requires pc == Black ==> Fits(upper, h + 1, Black)
    ensures |r| > 0
    decreases |upper| + Weight(pc), 1
  {
    var s := Case3Left(sib);
    if IsRed(s.right) then
      var top := RotateLeft(Node(Black, f, pv, s.(color := pc, right := s.right.(color := Black))));
      [LeftOf(top.left.color, top.left.value, top.left.right), LeftOf(top.color, top.value, top.right)] + upper
    else if pc == Red then
      [LeftOf(Black, pv, s.(color := Red))] + upper
    else
      [LeftOf(Black, pv, s.(color := Red))] + RemoveFix(Node(Black, f, pv, s.(color := Red)), upper, h + 1)
  }

  /**
   * Case 3, left side: when the far cousin is black and the near one red, the
   * near cousin turns black, the sibling red, and the sibling is rotated
   * right; the result is the new sibling.  Otherwise the sibling is kept.
   */
  function Case3Left(sib: Tree): (s: Tree)
    requires sib.Node?
    ensures s.Node?
    ensures InOrder(s) == InOrder(sib)
  {
    if IsBlack(sib.right) && IsRed(sib.left) then
      RotateRight(Node(Red, sib.left.(color := Black), sib.value, sib.right))
    else sib
  }

  /** Case 3 applies at most once: the sibling it produces does not qualify again. */
  lemma Case3LeftOnce(sib: Tree)
    requires sib.Node?
    ensures Case3Left(Case3Left(sib)) == Case3Left(sib)
  {
  }

  /** Case 3, right side: the mirror image of Case3Left. */
  function Case3Right(sib: Tree): (s: Tree)
    requires sib.Node?
    ensures s.Node?
    ensures InOrder(s) == InOrder(sib)
  {
    if IsBlack(sib.left) && IsRed(sib.right) then
      RotateLeft(Node(Red, sib.left, sib.value, sib.right.(color := Black)))
    else sib
  }

  /** The mirror image of Case3LeftOnce. */
  lemma Case3RightOnce(sib: Tree)
    requires sib.Node?
    ensures Case3Right(Case3Right(sib)) == Case3Right(sib)
  {
  }

  /** The mirror image of FixLeft: `f` is the right child and `sib` the left one. */
  function FixRight(sib: Tree, pc: Color, pv: int, f: Tree, upper: seq<Frame>, ghost h: nat): (r: seq<Frame>)
    requires f.Node? && f.color == Black && h >= 1
    requires sib.Node? && sib.color == Black
    requires pc == Black ==> Fits(upper, h + 1, Black)
    ensures |r| > 0
    decreases |upper| + Weight(pc), 1
  {
    var s := Case3Right(sib);
    if IsRed(s.left) then
      var top := RotateRight(Node(Black, s.(color := pc, left := s.left.(color := Black)), pv, f));
      [RightOf(top.right.left, top.right.color, top.right.value), RightOf(top.left, top.color, top.value)] + upper
    else if pc == Red then
      [RightOf(s.(color := Red), Black, pv)] + upper
    else
      [RightOf(s.(color := Red), Black, pv)] + RemoveFix(Node(Black, s.(color := Red), pv, f), upper, h + 1)
  }

  // ---------------------------------------------------------- case outcomes

  /** The red-sibling branch of RemoveFix, `f` a left child. */
  lemma RemoveFixRedLeft(f: Tree, pc: Color, pv: int, sib: Tree, upper: seq<Frame>, h: nat)
    requires f.Node? && f.color == Black && h >= 1 && IsRed(sib)
    requires Fits([LeftOf(pc, pv, sib)] + upper, h, Black)
    ensures sib.left.Node? && sib.left.color == Black
    ensures RemoveFix(f, [LeftOf(pc, pv, sib)] + upper, h)
         == FixLeft(f, Red, pv, sib.left, [LeftOf(Black, sib.value, sib.right)] + upper, h)
  {
    assert ([LeftOf(pc, pv, sib)] + upper)[1..] == upper;
  }

  /** The red-sibling branch of RemoveFix, `f` a right child. */
  lemma RemoveFixRedRight(sib: Tree, pc: Color, pv: int, f: Tree, upper: seq<Frame>, h: nat)
    requires f.Node? && f.color == Black && h >= 1 && IsRed(sib)
    requires Fits([RightOf(sib, pc, pv)] + upper, h, Black)
    ensures sib.right.Node? && sib.right.color == Black
    ensures RemoveFix(f, [RightOf(sib, pc, pv)] + upper, h)
         == FixRight(sib.right, Red, pv, f, [RightOf(sib.left, Black, sib.value)] + upper, h)
  {
    assert ([RightOf(sib, pc, pv)] + upper)[1..] == upper;
  }

  /** The black-sibling branch of RemoveFix, `f` a left child: the sibling is not null. */
  lemma RemoveFixBlackLeft(f: Tree, pc: Color, pv: int, sib: Tree, upper: seq<Frame>, h: nat)
    requires f.Node? && f.color == Black && h >= 1 && IsBlack(sib)
    requires Fits([LeftOf(pc, pv, sib)] + upper, h, Black)
    ensures sib.Node? && (pc == Black ==> Fits(upper, h + 1, Black))
    ensures RemoveFix(f, [LeftOf(pc, pv, sib)] + upper, h) == FixLeft(f, pc, pv, sib, upper, h)
  {
    assert ([LeftOf(pc, pv, sib)] + upper)[1..] == upper;
  }

  /** The black-sibling branch of RemoveFix, `f` a right child. */
  lemma RemoveFixBlackRight(sib: Tree, pc: Color, pv: int, f: Tree, upper: seq<Frame>, h: nat)
    requires f.Node? && f.color == Black && h >= 1 && IsBlack(sib)
    requires Fits([RightOf(sib, pc, pv)] + upper, h, Black)
    ensures sib.Node? && (pc == Black ==> Fits(upper, h + 1, Black))
    ensures RemoveFix(f, [RightOf(sib, pc, pv)] + upper, h) == FixRight(sib, pc, pv, f, upper, h)
  {
    assert ([RightOf(sib, pc, pv)] + upper)[1..] == upper;
  }

  /** Case 3 of FixLeft leaves a black sibling and the same result. */
  lemma FixLeftCase3(f: Tree, pc: Color, pv: int, sib: Tree, upper: seq<Frame>, h: nat)
    requires f.Node? && f.color == Black && h >= 1 && sib.Node? && sib.color == Black
    requires pc == Black ==> Fits(upper, h + 1, Black)
    ensures Case3Left(sib).color == Black
    ensures FixLeft(f, pc, pv, Case3Left(sib), upper, h) == FixLeft(f, pc, pv, sib, upper, h)
  {
    Case3LeftOnce(sib);
  }

  /** Case 2 of FixLeft: a red far cousin ends the fix-up with one rotation. */
  lemma FixLeftCase2(f: Tree, pc: Color, pv: int, sib: Tree, upper: seq<Frame>, h: nat)
    requires f.Node? && f.color == Black && h >= 1 && sib.Node? && sib.color == Black
    requires pc == Black ==> Fits(upper, h + 1, Black)
    requires IsRed(sib.right)
    ensures FixLeft(f, pc, pv, sib, upper, h)
         == [LeftOf(Black, pv, sib.left), LeftOf(pc, sib.value, sib.right.(color := Black))] + upper
  {
  }

  /** Case 4.1 of FixLeft: two black cousins under a red parent. */
  lemma FixLeftRecolor(f: Tree, pv: int, sib: Tree, upper: seq<Frame>, h: nat)
    requires f.Node? && f.color == Black && h >= 1 && sib.Node? && sib.color == Black
    requires IsBlack(sib.left) && IsBlack(sib.right)
    ensures FixLeft(f, Red, pv, sib, upper, h) == [LeftOf(Black, pv, sib.(color := Red))] + upper
  {
  }

  /** Case 4.2 of FixLeft: two black cousins under a black parent move the deficit up. */
  lemma FixLeftPushUp(f: Tree, pv: int, sib: Tree, upper: seq<Frame>, h: nat)
    requires f.Node? && f.color == Black && h >= 1 && sib.Node? && sib.color == Black
    requires IsBlack(sib.left) && IsBlack(sib.right) && Fits(upper, h + 1, Black)
    ensures FixLeft(f, Black, pv, sib, upper, h)
         == [LeftOf(Black, pv, sib.(color := Red))] + RemoveFix(Node(Black, f, pv, sib.(color := Red)), upper, h + 1)
  {
  }

  /** Case 3 of FixRight, the mirror image of FixLeftCase3. */
  lemma FixRightCase3(sib: Tree, pc: Color, pv: int, f: Tree, upper: seq<Frame>, h: nat)
    requires f.Node? && f.color == Black && h >= 1 && sib.Node? && sib.color == Black
    requires pc == Black ==> Fits(upper, h + 1, Black)
    ensures Case3Right(sib).color == Black
    ensures FixRight(Case3Right(sib), pc, pv, f, upper, h) == FixRight(sib, pc, pv, f, upper, h)
  {
    Case3RightOnce(sib);
  }

  /** Case 2 of FixRight: a red far cousin ends the fix-up with one rotation. */
  lemma FixRightCase2(sib: Tree, pc: Color, pv: int, f: Tree, upper: seq<Frame>, h: nat)
    requires f.Node? && f.color == Black && h >= 1 && sib.Node? && sib.color == Black
    requires pc == Black ==> Fits(upper, h + 1, Black)
    requires IsRed(sib.left)
    ensures FixRight(sib, pc, pv, f, upper, h)
         == [RightOf(sib.right, Black, pv), RightOf(sib.left.(color := Black), pc, sib.value)] + upper
  {
  }

  /** Case 4.1 of FixRight: two black cousins under a red parent. */
  lemma FixRightRecolor(sib: Tree, pv: int, f: Tree, upper: seq<Frame>, h: nat)
    requires f.Node? && f.color == Black && h >= 1 && sib.Node? && sib.color == Black
    requires IsBlack(sib.left) && IsBlack(sib.right)
    ensures FixRight(sib, Red, pv, f, upper, h) == [RightOf(sib.(color := Red), Black, pv)] + upper
  {
  }

  /** Case 4.2 of FixRight: two black cousins under a black parent move the deficit up. */
  lemma FixRightPushUp(sib: Tree, pv: int, f: Tree, upper: seq<Frame>, h: nat)
    requires f.Node? && f.color == Black && h >= 1 && sib.Node? && sib.color == Black
    requires IsBlack(sib.left) && IsBlack(sib.right) && Fits(upper, h + 1, Black)
    ensures FixRight(sib, Black, pv, f, upper, h)
         == [RightOf(sib.(color := Red), Black, pv)] + RemoveFix(Node(Black, sib.(color := Red), pv, f), upper, h + 1)
  {
  }

  // ------------------------------------------------------------------ Remove

  /** The loop `while (minNode->_left) minNode = minNode->_left`, keeping the chain. */
  function Leftmost(t: Tree, path: seq<Frame>): (r: (Tree, seq<Frame>))
    requires t.Node?
    ensures r.0.Node? && r.0.left.Leaf?
    ensures Plug(r.0, r.1) == Plug(t, path)
    ensures Before(r.1) == Before(path)
  {
    if t.left.Leaf? then (t, path)
    else Leftmost(t.left, [LeftOf(t.color, t.value, t.right)] + path)
  }

  /**
   * A node with both subtrees swaps its value with the minimum of its right
   * subtree, and removal continues at that minimum node; any other node is
   * removed where it is.  The result is the node to take out, holding the
   * value, and its parent chain; it has at most one child.
   */
  function SwapWithSuccessor(cur: Tree, path: seq<Frame>): (r: (Tree, seq<Frame>))
    requires cur.Node?
    ensures r.0.Node? && r.0.value == cur.value
    ensures r.0.left.Leaf? || r.0.right.Leaf?
    ensures cur.left.Leaf? || cur.right.Leaf? ==> r == (cur, path)
  {
    if cur.left.Node? && cur.right.Node? then
      var (m, mp) := Leftmost(cur.right, []);
      (m.(value := cur.value), mp + [RightOf(cur.left, cur.color, m.value)] + path)
    else (cur, path)
  }

  /**
   * Take out the node `x` (at most one child) whose chain is `path`: a black
   * node is first adjusted with RemoveFix; then the node is replaced by its
   * child, which becomes the root, coloured black, when the node was the root.
   */
  function Unlink(x: Tree, path: seq<Frame>): (r: Tree)
    requires x.Node? && (x.left.Leaf? || x.right.Leaf?)
    requires IsRedBlack(Plug(x, path))
    ensures IsBlack(r)
  {
    SplitRedBlack(x, path);
    UnlinkPath(x, path);
    var p := if IsBlack(x) then RemoveFix(x, path, BlackHeight(x)) else path;
    var child := if x.left.Node? then x.left else x.right;
    if p == [] then
      if child.Leaf? then Leaf else child.(color := Black)
    else
      PlugTop(child, p);
      Plug(child, p)
  }

  /**
   * Remove: the new tree and the node taken out (with its links cleared),
   * or the unchanged tree and `None` when the tree is empty or the value is
   * not found.
   */
  function Remove(t: Tree, v: int): (r: (Tree, Option<Tree>))
    requires IsRedBlack(t)
    ensures r.1.None? ==> r.0 == t
    ensures r.1.Some? ==> r.1.value.Node? && r.1.value.value == v && IsLeafNode(r.1.value)
  {
    if t.Leaf? then (t, None)
    else
      match Locate(t, v, [])
      case None => (t, None)
      case Some((cur, p)) =>
        var (x, q) := SwapWithSuccessor(cur, p);
        SwapRedBlack(cur, p);
        (Unlink(x, q), Some(Node(x.color, Leaf, x.value, Leaf)))
  }

  // ------------------------------------------------------------ proofs

  /** The red-black fit of a path depends only on its frames' colours and siblings. */
  lemma {:induction false} FitsSameShape(p: seq<Frame>, q: seq<Frame>, h: nat, c: Color)
    requires |p| == |q|
    requires forall i | 0 <= i < |p| :: p[i].color == q[i].color && Sibling(p[i]) == Sibling(q[i])
    requires Fits(p, h, c)
    ensures Fits(q, h, c)
    decreases |p|
  {
    if p != [] {
      assert forall i | 0 <= i < |p| - 1 :: p[1..][i] == p[i + 1] && q[1..][i] == q[i + 1];
      FitsSameShape(p[1..], q[1..], h + Weight(p[0].color), p[0].color);
    }
  }

  /** Swapping the value down keeps the red-black invariants. */
  lemma SwapRedBlack(cur: Tree, path: seq<Frame>)
    requires cur.Node? && IsRedBlack(Plug(cur, path))
    ensures IsRedBlack(Plug(SwapWithSuccessor(cur, path).0, SwapWithSuccessor(cur, path).1))
  {
    if cur.left.Node? && cur.right.Node? {
      var (m, mp) := Leftmost(cur.right, []);
      var p := mp + [RightOf(cur.left, cur.color, cur.value)] + path;
      var q := mp + [RightOf(cur.left, cur.color, m.value)] + path;
      var x := m.(value := cur.value);
      PlugAppend(m, mp, [RightOf(cur.left, cur.color, cur.value)] + path);
      assert mp + [RightOf(cur.left, cur.color, cur.value)] + path == mp + ([RightOf(cur.left, cur.color, cur.value)] + path);
      assert Plug(m, p) == Plug(cur, path);
      SplitRedBlack(m, p);
      forall i | 0 <= i < |p| ensures p[i].color == q[i].color && Sibling(p[i]) == Sibling(q[i]) {
        if i < |mp| {
          assert p[i] == mp[i] == q[i];
        } else if i > |mp| {
          assert p[i] == path[i - |mp| - 1] == q[i];
        }
      }
      FitsSameShape(p, q, BlackHeight(m), ColorOf(m));
      assert p[|p| - 1].color == q[|q| - 1].color;
      PlugRedBlack(x, q);
    }
  }

  /**
   * __Remove_Adjust keeps the in-order sequence, and afterwards the frames fit
   * a focus one black level lower, of either colour: the node `f` can then be
   * replaced by a subtree of black height one less without breaking the
   * red-black rules.  This is the invariant the recursion of case 4.2 keeps.
   */
  lemma {:induction false} RemoveFixCorrect(f: Tree, path: seq<Frame>, h: nat)
    requires f.Node? && f.color == Black && h >= 1
    requires Fits(path, h, Black) && TopBlack(path)
    ensures Before(RemoveFix(f, path, h)) == Before(path)
    ensures After(RemoveFix(f, path, h)) == After(path)
    ensures Fits(RemoveFix(f, path, h), h - 1, Red)
    ensures TopBlack(RemoveFix(f, path, h))
    decreases |path|, 3
  {
    if path != [] {
      var rest := path[1..];
      assert path == [path[0]] + rest;
      match path[0]
      case LeftOf(pc, pv, sib) =>
        if IsRed(sib) {
          RedSiblingLeft(f, pv, sib, rest, h);
        } else {
          FixLeftCorrect(f, pc, pv, sib, rest, h);
        }
      case RightOf(sib, pc, pv) =>
        if IsRed(sib) {
          RedSiblingRight(sib, pv, f, rest, h);
        } else {
          FixRightCorrect(sib, pc, pv, f, rest, h);
        }
    }
  }

  /** Case 1, left side: after the rotation the black-sibling cases apply. */
  lemma {:induction false} RedSiblingLeft(f: Tree, pv: int, sib: Tree, rest: seq<Frame>, h: nat)
    requires f.Node? && f.color == Black && h >= 1 && IsRed(sib)
    requires Fits([LeftOf(Black, pv, sib)] + rest, h, Black)
    requires TopBlack([LeftOf(Black, pv, sib)] + rest)
    ensures var r := RemoveFix(f, [LeftOf(Black, pv, sib)] + rest, h);
      && Before(r) == Before(rest)
      && After(r) == [pv] + InOrder(sib) + After(rest)
      && Fits(r, h - 1, Red) && TopBlack(r)
    decreases |rest| + 1, 2
  {
    var path := [LeftOf(Black, pv, sib)] + rest;
    FitsCons(LeftOf(Black, pv, sib), rest, h, Black);
    TopBlackCons(LeftOf(Black, pv, sib), rest);
    var u := [LeftOf(Black, sib.value, sib.right)] + rest;
    FitsCons(LeftOf(Black, sib.value, sib.right), rest, h, Red);
    TopBlackCons(LeftOf(Black, sib.value, sib.right), rest);
    FitsCons(LeftOf(Red, pv, sib.left), u, h, Black);
    TopBlackCons(LeftOf(Red, pv, sib.left), u);
    assert path[0] == LeftOf(Black, pv, sib) && path[1..] == rest;
    assert RemoveFix(f, path, h) == FixLeft(f, Red, pv, sib.left, u, h);
    FixLeftCorrect(f, Red, pv, sib.left, u, h);
    BeforeAfterCons(LeftOf(Black, sib.value, sib.right), rest);
    var r := RemoveFix(f, path, h);
    assert After(r) == [pv] + InOrder(sib.left) + After(u);
    assert After(u) == [sib.value] + InOrder(sib.right) + After(rest);
    Regroup([pv], InOrder(sib.left), [sib.value], InOrder(sib.right), After(rest));
    assert After(r) == [pv] + InOrder(sib) + After(rest);
  }

  /** Case 1, right side. */
  lemma {:induction false} RedSiblingRight(sib: Tree, pv: int, f: Tree, rest: seq<Frame>, h: nat)
    requires f.Node? && f.color == Black && h >= 1 && IsRed(sib)
    requires Fits([RightOf(sib, Black, pv)] + rest, h, Black)
    requires TopBlack([RightOf(sib, Black, pv)] + rest)
    ensures var r := RemoveFix(f, [RightOf(sib, Black, pv)] + rest, h);
      && Before(r) == Before(rest) + InOrder(sib) + [pv]
      && After(r) == After(rest)
      && Fits(r, h - 1, Red) && TopBlack(r)
    decreases |rest| + 1, 2
  {
    var path := [RightOf(sib, Black, pv)] + rest;
    FitsCons(RightOf(sib, Black, pv), rest, h, Black);
    TopBlackCons(RightOf(sib, Black, pv), rest);
    var u := [RightOf(sib.left, Black, sib.value)] + rest;
    FitsCons(RightOf(sib.left, Black, sib.value), rest, h, Red);
    TopBlackCons(RightOf(sib.left, Black, sib.value), rest);
    FitsCons(RightOf(sib.right, Red, pv), u, h, Black);
    TopBlackCons(RightOf(sib.right, Red, pv), u);
    assert path[0] == RightOf(sib, Black, pv) && path[1..] == rest;
    assert RemoveFix(f, path, h) == FixRight(sib.right, Red, pv, f, u, h);
    FixRightCorrect(sib.right, Red, pv, f, u, h);
    BeforeAfterCons(RightOf(sib.left, Black, sib.value), rest);
    var r := RemoveFix(f, path, h);
    assert Before(r) == Before(u) + InOrder(sib.right) + [pv];
    assert Before(u) == Before(rest) + (InOrder(sib.left) + [sib.value]);
    Regroup2(Before(rest), InOrder(sib.left), [sib.value], InOrder(sib.right), [pv]);
    assert Before(r) == Before(rest) + InOrder(sib) + [pv];
  }

  /** The black-sibling cases, left side: see RemoveFixCorrect. */
  lemma {:induction false} FixLeftCorrect(f: Tree, pc: Color, pv: int, sib: Tree, upper: seq<Frame>, h: nat)
    requires f.Node? && f.color == Black && h >= 1
    requires sib.Node? && sib.color == Black
    requires Fits([LeftOf(pc, pv, sib)] + upper, h, Black)
    requires TopBlack([LeftOf(pc, pv, sib)] + upper)
    ensures var r := FixLeft(f, pc, pv, sib, upper, h);
      && Before(r) == Before(upper)
      && After(r) == [pv] + InOrder(sib) + After(upper)
      && Fits(r, h - 1, Red) && TopBlack(r)
    decreases |upper| + Weight(pc), 1
  {
    FitsCons(LeftOf(pc, pv, sib), upper, h, Black);
    TopBlackCons(LeftOf(pc, pv, sib), upper);
    var s := Case3Left(sib);
    Case3LeftFacts(sib, h);
    FixLeftCase3(f, pc, pv, sib, upper, h);
    if IsRed(s.right) {
      var x, y := LeftOf(Black, pv, s.left), LeftOf(pc, s.value, s.right.(color := Black));
      FixLeftCase2(f, pc, pv, s, upper, h);
      assert [x, y] + upper == [x] + ([y] + upper);
      Case2Left(pc, pv, s, upper, h);
    } else if pc == Red {
      FixLeftRecolorCorrect(f, pv, sib, upper, h);
    } else {
      FixLeftPushUpCorrect(f, pv, sib, upper, h);
    }
  }


  /** The black-sibling cases, right side: see RemoveFixCorrect. */
  lemma {:induction false} FixRightCorrect(sib: Tree, pc: Color, pv: int, f: Tree, upper: seq<Frame>, h: nat)
    requires f.Node? && f.color == Black && h >= 1
    requires sib.Node? && sib.color == Black
    requires Fits([RightOf(sib, pc, pv)] + upper, h, Black)
    requires TopBlack([RightOf(sib, pc, pv)] + upper)
    ensures var r := FixRight(sib, pc, pv, f, upper, h);
      && Before(r) == Before(upper) + InOrder(sib) + [pv]
      && After(r) == After(upper)
      && Fits(r, h - 1, Red) && TopBlack(r)
    decreases |upper| + Weight(pc), 1
  {
    FitsCons(RightOf(sib, pc, pv), upper, h, Black);
    TopBlackCons(RightOf(sib, pc, pv), upper);
    var s := Case3Right(sib);
    Case3RightFacts(sib, h);
    FixRightCase3(sib, pc, pv, f, upper, h);
    if IsRed(s.left) {
      var x, y := RightOf(s.right, Black, pv), RightOf(s.left.(color := Black), pc, s.value);
      FixRightCase2(s, pc, pv, f, upper, h);
      assert [x, y] + upper == [x] + ([y] + upper);
      Case2Right(pc, pv, s, upper, h);
    } else if pc == Red {
      FixRightRecolorCorrect(sib, pv, f, upper, h);
    } else {
      FixRightPushUpCorrect(sib, pv, f, upper, h);
    }
  }


  /** Case 4.1, left side: the red parent absorbs the deficit; see FixLeftCorrect. */
  lemma FixLeftRecolorCorrect(f: Tree, pv: int, sib: Tree, upper: seq<Frame>, h: nat)
    requires f.Node? && f.color == Black && h >= 1 && sib.Node? && sib.color == Black
    requires IsBlack(sib.left) && IsBlack(sib.right)
    requires NoRedRed(sib) && BlackBalanced(sib) && BlackHeight(sib) == h
    requires Fits(upper, h, Red) && TopBlack(upper)
    ensures var r := FixLeft(f, Red, pv, sib, upper, h);
      && Before(r) == Before(upper)
      && After(r) == [pv] + InOrder(sib) + After(upper)
      && Fits(r, h - 1, Red) && TopBlack(r)
  {
    var s' := sib.(color := Red);
    assert BlackHeight(s') == h - 1 && NoRedRed(s') && BlackBalanced(s');
    FitsBlack(upper, h);
    FixLeftRecolor(f, pv, sib, upper, h);
    BlackFrameLeft(pv, s', upper, h);
  }

  /** Case 4.1, right side: the mirror image of FixLeftRecolorCorrect. */
  lemma FixRightRecolorCorrect(sib: Tree, pv: int, f: Tree, upper: seq<Frame>, h: nat)
    requires f.Node? && f.color == Black && h >= 1 && sib.Node? && sib.color == Black
    requires IsBlack(sib.left) && IsBlack(sib.right)
    requires NoRedRed(sib) && BlackBalanced(sib) && BlackHeight(sib) == h
    requires Fits(upper, h, Red) && TopBlack(upper)
    ensures var r := FixRight(sib, Red, pv, f, upper, h);
      && Before(r) == Before(upper) + InOrder(sib) + [pv]
      && After(r) == After(upper)
      && Fits(r, h - 1, Red) && TopBlack(r)
  {
    var s' := sib.(color := Red);
    assert BlackHeight(s') == h - 1 && NoRedRed(s') && BlackBalanced(s');
    FitsBlack(upper, h);
    FixRightRecolor(sib, pv, f, upper, h);
    BlackFrameRight(s', pv, upper, h);
  }

  /** Case 4.2, left side: the deficit moves up to the black parent; see FixLeftCorrect. */
  lemma {:induction false} FixLeftPushUpCorrect(f: Tree, pv: int, sib: Tree, upper: seq<Frame>, h: nat)
    requires f.Node? && f.color == Black && h >= 1 && sib.Node? && sib.color == Black
    requires IsBlack(sib.left) && IsBlack(sib.right)
    requires NoRedRed(sib) && BlackBalanced(sib) && BlackHeight(sib) == h
    requires Fits(upper, h + 1, Black) && TopBlack(upper)
    ensures var r := FixLeft(f, Black, pv, sib, upper, h);
      && Before(r) == Before(upper)
      && After(r) == [pv] + InOrder(sib) + After(upper)
      && Fits(r, h - 1, Red) && TopBlack(r)
    decreases |upper| + 1, 0
  {
    var g := Node(Black, f, pv, sib.(color := Red));
    RemoveFixCorrect(g, upper, h + 1);
    FixLeftPushUp(f, pv, sib, upper, h);
    PushUpLeft(pv, sib, RemoveFix(g, upper, h + 1), upper, h);
  }

  /** Case 4.2, right side: the mirror image of FixLeftPushUpCorrect. */
  lemma {:induction false} FixRightPushUpCorrect(sib: Tree, pv: int, f: Tree, upper: seq<Frame>, h: nat)
    requires f.Node? && f.color == Black && h >= 1 && sib.Node? && sib.color == Black
    requires IsBlack(sib.left) && IsBlack(sib.right)
    requires NoRedRed(sib) && BlackBalanced(sib) && BlackHeight(sib) == h
    requires Fits(upper, h + 1, Black) && TopBlack(upper)
    ensures var r := FixRight(sib, Black, pv, f, upper, h);
      && Before(r) == Before(upper) + InOrder(sib) + [pv]
      && After(r) == After(upper)
      && Fits(r, h - 1, Red) && TopBlack(r)
    decreases |upper| + 1, 0
  {
    var g := Node(Black, sib.(color := Red), pv, f);
    RemoveFixCorrect(g, upper, h + 1);
    FixRightPushUp(sib, pv, f, upper, h);
    PushUpRight(sib, pv, RemoveFix(g, upper, h + 1), upper, h);
  }

  /**
   * What case 4.2 adds on top of the adjusted chain `rr` of the parent: the
   * parent's frame, black, with the sibling turned red.
   */
  lemma PushUpLeft(pv: int, sib: Tree, rr: seq<Frame>, upper: seq<Frame>, h: nat)
    requires h >= 1 && sib.Node? && sib.color == Black && IsBlack(sib.left) && IsBlack(sib.right)
    requires NoRedRed(sib) && BlackBalanced(sib) && BlackHeight(sib) == h
    requires Before(rr) == Before(upper) && After(rr) == After(upper) && Fits(rr, h, Red) && TopBlack(rr)
    ensures var r := [LeftOf(Black, pv, sib.(color := Red))] + rr;
      && Before(r) == Before(upper)
      && After(r) == [pv] + InOrder(sib) + After(upper)
      && Fits(r, h - 1, Red) && TopBlack(r)
  {
    var s' := sib.(color := Red);
    assert BlackHeight(s') == h - 1 && NoRedRed(s') && BlackBalanced(s') && InOrder(s') == InOrder(sib);
    FitsBlack(rr, h);
    BlackFrameLeft(pv, s', rr, h);
  }

  /** The mirror image of PushUpLeft. */
  lemma PushUpRight(sib: Tree, pv: int, rr: seq<Frame>, upper: seq<Frame>, h: nat)
    requires h >= 1 && sib.Node? && sib.color == Black && IsBlack(sib.left) && IsBlack(sib.right)
    requires NoRedRed(sib) && BlackBalanced(sib) && BlackHeight(sib) == h
    requires Before(rr) == Before(upper) && After(rr) == After(upper) && Fits(rr, h, Red) && TopBlack(rr)
    ensures var r := [RightOf(sib.(color := Red), Black, pv)] + rr;
      && Before(r) == Before(upper) + InOrder(sib) + [pv]
      && After(r) == After(upper)
      && Fits(r, h - 1, Red) && TopBlack(r)
  {
    var s' := sib.(color := Red);
    assert BlackHeight(s') == h - 1 && NoRedRed(s') && BlackBalanced(s') && InOrder(s') == InOrder(sib);
    FitsBlack(rr, h);
    BlackFrameRight(s', pv, rr, h);
  }

  /** Case 2, left side: the frames after the rotation. */
  lemma Case2Left(pc: Color, pv: int, s: Tree, upper: seq<Frame>, h: nat)
    requires s.Node? && IsRed(s.right) && h >= 1
    requires NoRedRed(s.left) && BlackBalanced(s.left) && BlackHeight(s.left) == h - 1
    requires NoRedRed(s.right) && BlackBalanced(s.right) && BlackHeight(s.right) == h - 1
    requires Fits(upper, h + Weight(pc), pc)
    requires if upper == [] then pc == Black else TopBlack(upper)
    ensures var r := [LeftOf(Black, pv, s.left)] + ([LeftOf(pc, s.value, s.right.(color := Black))] + upper);
      && Before(r) == Before(upper)
      && After(r) == [pv] + InOrder(s) + After(upper)
      && Fits(r, h - 1, Red) && TopBlack(r)
  {
    var sR := s.right.(color := Black);
    var r1 := [LeftOf(pc, s.value, sR)] + upper;
    FitsCons(LeftOf(pc, s.value, sR), upper, h, Black);
    TopBlackCons(LeftOf(pc, s.value, sR), upper);
    BlackFrameLeft(pv, s.left, r1, h);
    BeforeAfterCons(LeftOf(pc, s.value, sR), upper);
    assert InOrder(sR) == InOrder(s.right);
    assert After(r1) == [s.value] + InOrder(s.right) + After(upper);
    Regroup([pv], InOrder(s.left), [s.value], InOrder(s.right), After(upper));
  }

  /** Case 2, right side. */
  lemma Case2Right(pc: Color, pv: int, s: Tree, upper: seq<Frame>, h: nat)
    requires s.Node? && IsRed(s.left) && h >= 1
    requires NoRedRed(s.left) && BlackBalanced(s.left) && BlackHeight(s.left) == h - 1
    requires NoRedRed(s.right) && BlackBalanced(s.right) && BlackHeight(s.right) == h - 1
    requires Fits(upper, h + Weight(pc), pc)
    requires if upper == [] then pc == Black else TopBlack(upper)
    ensures var r := [RightOf(s.right, Black, pv)] + ([RightOf(s.left.(color := Black), pc, s.value)] + upper);
      && Before(r) == Before(upper) + InOrder(s) + [pv]
      && After(r) == After(upper)
      && Fits(r, h - 1, Red) && TopBlack(r)
  {
    var sL := s.left.(color := Black);
    var r1 := [RightOf(sL, pc, s.value)] + upper;
    FitsCons(RightOf(sL, pc, s.value), upper, h, Black);
    TopBlackCons(RightOf(sL, pc, s.value), upper);
    BlackFrameRight(s.right, pv, r1, h);
    BeforeAfterCons(RightOf(sL, pc, s.value), upper);
    assert InOrder(sL) == InOrder(s.left);
    assert Before(r1) == Before(upper) + (InOrder(s.left) + [s.value]);
    Regroup2(Before(upper), InOrder(s.left), [s.value], InOrder(s.right), [pv]);
  }

  /** Prepending a black left-of frame whose sibling is one level lower. */
  lemma BlackFrameLeft(pv: int, sib: Tree, rest: seq<Frame>, h: nat)
    requires h >= 1
    requires NoRedRed(sib) && BlackBalanced(sib) && BlackHeight(sib) == h - 1
    requires Fits(rest, h, Black) && TopBlack(rest)
    ensures var r := [LeftOf(Black, pv, sib)] + rest;
      && Before(r) == Before(rest)
      && After(r) == [pv] + InOrder(sib) + After(rest)
      && Fits(r, h - 1, Red) && TopBlack(r)
  {
    BlackFrameFits(LeftOf(Black, pv, sib), rest, h);
    BeforeAfterCons(LeftOf(Black, pv, sib), rest);
  }

  /** Prepending a black right-of frame whose sibling is one level lower. */
  lemma BlackFrameRight(sib: Tree, pv: int, rest: seq<Frame>, h: nat)
    requires h >= 1
    requires NoRedRed(sib) && BlackBalanced(sib) && BlackHeight(sib) == h - 1
    requires Fits(rest, h, Black) && TopBlack(rest)
    ensures var r := [RightOf(sib, Black, pv)] + rest;
      && Before(r) == Before(rest) + InOrder(sib) + [pv]
      && After(r) == After(rest)
      && Fits(r, h - 1, Red) && TopBlack(r)
  {
    BlackFrameFits(RightOf(sib, Black, pv), rest, h);
    BeforeAfterCons(RightOf(sib, Black, pv), rest);
  }

  /** Fits, unfolded once on a path with a known first frame. */
  lemma FitsCons(fr: Frame, rest: seq<Frame>, h: nat, c: Color)
    ensures Fits([fr] + rest, h, c) <==>
      && NoRedRed(Sibling(fr)) && BlackBalanced(Sibling(fr)) && BlackHeight(Sibling(fr)) == h
      && (fr.color == Red ==> c == Black && IsBlack(Sibling(fr)))
      && Fits(rest, h + Weight(fr.color), fr.color)
  {
    assert ([fr] + rest)[0] == fr && ([fr] + rest)[1..] == rest;
  }

  lemma TopBlackCons(fr: Frame, rest: seq<Frame>)
    ensures TopBlack([fr] + rest) <==> if rest == [] then fr.color == Black else TopBlack(rest)
  {
    if rest != [] {
      assert ([fr] + rest)[|rest|] == rest[|rest| - 1];
    }
  }

  lemma BeforeAfterCons(fr: Frame, rest: seq<Frame>)
    ensures Before([fr] + rest) == Before(rest) + Before([fr])
    ensures After([fr] + rest) == After([fr]) + After(rest)
    ensures Before([fr]) == (if fr.LeftOf? then [] else InOrder(fr.left) + [fr.value])
    ensures After([fr]) == (if fr.LeftOf? then [fr.value] + InOrder(fr.right) else [])
  {
    BeforeAfterAppend([fr], rest);
    assert [fr][1..] == [];
  }

  /** A black frame whose sibling is one level lower fits a focus of that lower level. */
  lemma BlackFrameFits(fr: Frame, rest: seq<Frame>, h: nat)
    requires fr.color == Black && h >= 1
    requires NoRedRed(Sibling(fr)) && BlackBalanced(Sibling(fr)) && BlackHeight(Sibling(fr)) == h - 1
    requires Fits(rest, h, Black) && TopBlack(rest)
    ensures Fits([fr] + rest, h - 1, Red) && TopBlack([fr] + rest)
  {
    FitsCons(fr, rest, h - 1, Red);
    TopBlackCons(fr, rest);
  }

  /** What case 3 leaves for case 2 and case 4: a black sibling with balanced children one level lower. */
  lemma Case3LeftFacts(sib: Tree, h: nat)
    requires sib.Node? && sib.color == Black && h >= 1 && BlackHeight(sib) == h
    requires NoRedRed(sib) && BlackBalanced(sib)
    ensures var s := Case3Left(sib);
      && s.color == Black
      && NoRedRed(s.left) && BlackBalanced(s.left) && BlackHeight(s.left) == h - 1
      && NoRedRed(s.right) && BlackBalanced(s.right) && BlackHeight(s.right) == h - 1
      && (IsBlack(s.right) ==> s == sib && IsBlack(sib.left))
  {
    if IsBlack(sib.right) && IsRed(sib.left) {
      var sl := sib.left;
      assert Case3Left(sib) == Node(Black, sl.left, sl.value, Node(Red, sl.right, sib.value, sib.right));
      assert BlackHeight(sl.right) == h - 1 && IsBlack(sl.right);
    }
  }

  lemma Case3RightFacts(sib: Tree, h: nat)
    requires sib.Node? && sib.color == Black && h >= 1 && BlackHeight(sib) == h
    requires NoRedRed(sib) && BlackBalanced(sib)
    ensures var s := Case3Right(sib);
      && s.color == Black
      && NoRedRed(s.left) && BlackBalanced(s.left) && BlackHeight(s.left) == h - 1
      && NoRedRed(s.right) && BlackBalanced(s.right) && BlackHeight(s.right) == h - 1
      && (IsBlack(s.left) ==> s == sib && IsBlack(sib.right))
  {
    if IsBlack(sib.left) && IsRed(sib.right) {
      var sr := sib.right;
      assert Case3Right(sib) == Node(Black, Node(Red, sib.left, sib.value, sr.left), sr.value, sr.right);
      assert BlackHeight(sr.left) == h - 1 && IsBlack(sr.left);
    }
  }

  /** `s'` is `s` with one occurrence of `v` taken out. */
  ghost predicate RemovedAt(s: seq<int>, s': seq<int>, v: int)
  {
    exists k | 0 <= k < |s| :: s[k] == v && s' == s[..k] + s[k + 1..]
  }

  /** Taking out one element removes one occurrence from the multiset. */
  lemma RemovedAtMultiset(s: seq<int>, s': seq<int>, v: int)
    requires RemovedAt(s, s', v)
    ensures multiset(s') == multiset(s) - multiset{v}
    ensures v in s
  {
    var k :| 0 <= k < |s| && s[k] == v && s' == s[..k] + s[k + 1..];
    assert s == s[..k] + [v] + s[k + 1..];
  }

  /** Taking out one element keeps a (strictly) increasing sequence so. */
  lemma RemovedAtOrdered(s: seq<int>, s': seq<int>, v: int)
    requires RemovedAt(s, s', v)
    ensures Sorted(s) ==> Sorted(s')
    ensures StrictlySorted(s) ==> StrictlySorted(s')
    ensures StrictlySorted(s) ==> v !in s'
  {
    var k :| 0 <= k < |s| && s[k] == v && s' == s[..k] + s[k + 1..];
    if Sorted(s) {
      DropSorted(s, k);
    }
    if StrictlySorted(s) {
      DropStrictlySorted(s, k);
    }
  }

  lemma DropSorted(s: seq<int>, k: int)
    requires 0 <= k < |s| && Sorted(s)
    ensures Sorted(s[..k] + s[k + 1..])
  {
    var s' := s[..k] + s[k + 1..];
    forall i, j | 0 <= i < j < |s'| ensures s'[i] <= s'[j] {
      DropIndex(s, k, i);
      DropIndex(s, k, j);
    }
  }

  lemma DropStrictlySorted(s: seq<int>, k: int)
    requires 0 <= k < |s| && StrictlySorted(s)
    ensures StrictlySorted(s[..k] + s[k + 1..])
    ensures s[k] !in s[..k] + s[k + 1..]
  {
    var s' := s[..k] + s[k + 1..];
    forall i, j | 0 <= i < j < |s'| ensures s'[i] < s'[j] {
      DropIndex(s, k, i);
      DropIndex(s, k, j);
    }
    forall i | 0 <= i < |s'| ensures s'[i] != s[k] {
      DropIndex(s, k, i);
    }
  }

  /** An element left after dropping index `k`. */
  lemma DropIndex(s: seq<int>, k: int, i: int)
    requires 0 <= k < |s| && 0 <= i < |s| - 1
    ensures |s[..k] + s[k + 1..]| == |s| - 1
    ensures (s[..k] + s[k + 1..])[i] == if i < k then s[i] else s[i + 1]
  {
  }

  /**
   * Where the value goes: taking the node `x` out of the chain `q` removes
   * exactly the one occurrence of the value that the search found (with the
   * swap, the successor value moves up into the found node's place).
   */
  lemma SwapInOrder(cur: Tree, path: seq<Frame>)
    requires cur.Node?
    ensures var (x, q) := SwapWithSuccessor(cur, path);
      RemovedAt(InOrder(Plug(cur, path)), Before(q) + InOrder(x.left) + InOrder(x.right) + After(q), cur.value)
  {
    if cur.left.Node? && cur.right.Node? {
      SwapInOrderTwoChildren(cur, path);
    } else {
      var s := InOrder(Plug(cur, path));
      PlugInOrder(cur, path);
      var B, L, R, A := Before(path), InOrder(cur.left), InOrder(cur.right), After(path);
      NoSwapShape(s, B + L + R + A, B, L, R, A, cur.value);
    }
  }

  lemma SwapInOrderTwoChildren(cur: Tree, path: seq<Frame>)
    requires cur.Node? && cur.left.Node? && cur.right.Node?
    ensures var (x, q) := SwapWithSuccessor(cur, path);
      RemovedAt(InOrder(Plug(cur, path)), Before(q) + InOrder(x.left) + InOrder(x.right) + After(q), cur.value)
  {
    var lm := Leftmost(cur.right, []);
    var q := lm.1 + [RightOf(cur.left, cur.color, lm.0.value)] + path;
    var x := lm.0.(value := cur.value);
    assert SwapWithSuccessor(cur, path) == (x, q);
    SwapPieces(cur, path, lm.0, lm.1);
  }

  /** The in-order pieces around the found node and around its successor `m`. */
  lemma SwapPieces(cur: Tree, path: seq<Frame>, m: Tree, mp: seq<Frame>)
    requires cur.Node? && cur.left.Node? && cur.right.Node?
    requires m.Node? && m.left.Leaf? && Plug(m, mp) == cur.right && Before(mp) == []
    ensures var q := mp + [RightOf(cur.left, cur.color, m.value)] + path;
      RemovedAt(InOrder(Plug(cur, path)), Before(q) + InOrder(Leaf) + InOrder(m.right) + After(q), cur.value)
  {
    var q := mp + [RightOf(cur.left, cur.color, m.value)] + path;
    FoundPieces(cur, path);
    SuccessorPieces(m, mp);
    SuccessorChain(mp, RightOf(cur.left, cur.color, m.value), path);
    SwapShape(InOrder(Plug(cur, path)), Before(path), InOrder(cur.left), InOrder(cur.right), After(path),
              InOrder(m.right), After(mp), cur.value, m.value, Before(q), InOrder(Leaf), InOrder(m.right), After(q));
  }

  lemma FoundPieces(cur: Tree, path: seq<Frame>)
    requires cur.Node?
    ensures InOrder(Plug(cur, path)) == Before(path) + (InOrder(cur.left) + [cur.value] + InOrder(cur.right)) + After(path)
  {
    PlugInOrder(cur, path);
  }

  lemma SuccessorPieces(m: Tree, mp: seq<Frame>)
    requires m.Node? && m.left.Leaf? && Before(mp) == []
    ensures InOrder(Plug(m, mp)) == [m.value] + InOrder(m.right) + After(mp)
  {
    PlugInOrder(m, mp);
    assert InOrder(m) == [m.value] + InOrder(m.right);
  }

  lemma SuccessorChain(mp: seq<Frame>, fr: Frame, path: seq<Frame>)
    requires fr.RightOf? && Before(mp) == []
    ensures Before(mp + [fr] + path) == Before(path) + (InOrder(fr.left) + [fr.value])
    ensures After(mp + [fr] + path) == After(mp) + After(path)
    ensures InOrder(Leaf) == []
  {
    SuccessorBefore(mp, fr, path);
    SuccessorAfter(mp, fr, path);
  }

  lemma SuccessorBefore(mp: seq<Frame>, fr: Frame, path: seq<Frame>)
    requires fr.RightOf? && Before(mp) == []
    ensures Before(mp + [fr] + path) == Before(path) + (InOrder(fr.left) + [fr.value])
  {
    assert Before([fr]) == InOrder(fr.left) + [fr.value] by {
      assert [fr][1..] == [];
    }
    assert Before(mp + [fr]) == Before([fr]) by {
      BeforeAppend(mp, [fr]);
      assert Before([fr]) + [] == Before([fr]);
    }
    BeforeAppend(mp + [fr], path);
  }

  lemma SuccessorAfter(mp: seq<Frame>, fr: Frame, path: seq<Frame>)
    requires fr.RightOf?
    ensures After(mp + [fr] + path) == After(mp) + After(path)
  {
    assert After([fr]) == [] by {
      assert [fr][1..] == [];
    }
    assert After(mp + [fr]) == After(mp) by {
      AfterAppend(mp, [fr]);
      assert After(mp) + [] == After(mp);
    }
    AfterAppend(mp + [fr], path);
  }

  lemma NoSwapShape(s: seq<int>, r: seq<int>, B: seq<int>, L: seq<int>, R: seq<int>, A: seq<int>, v: int)
    requires s == B + (L + [v] + R) + A
    requires r == B + L + R + A
    ensures RemovedAt(s, r, v)
  {
    var k := |B| + |L|;
    assert s == (B + L) + [v] + (R + A);
    assert s[..k] == B + L && s[k] == v && s[k + 1..] == R + A;
  }

  lemma SwapShape(s: seq<int>, B: seq<int>, L: seq<int>, R: seq<int>, A: seq<int>,
                  MR: seq<int>, AM: seq<int>, v: int, mv: int,
                  BQ: seq<int>, XL: seq<int>, XR: seq<int>, AQ: seq<int>)
    requires s == B + (L + [v] + R) + A
    requires R == [mv] + MR + AM
    requires BQ == B + (L + [mv]) && XL == [] && XR == MR && AQ == AM + A
    ensures RemovedAt(s, BQ + XL + XR + AQ, v)
  {
    NoSwapShape(s, B + L + R + A, B, L, R, A, v);
    assert BQ + XL + XR + AQ == B + L + R + A;
  }

  /**
   * The chain a node is spliced out under: after the fix-up of a black node
   * it fits the node's only child (or null) as the new focus, with the same
   * in-order values on both sides.
   */
  lemma UnlinkPath(x: Tree, q: seq<Frame>)
    requires x.Node? && (x.left.Leaf? || x.right.Leaf?)
    requires IsRedBlack(Plug(x, q)) && Fits(q, BlackHeight(x), ColorOf(x))
    ensures var child := if x.left.Node? then x.left else x.right;
      var p := if IsBlack(x) then RemoveFix(x, q, BlackHeight(x)) else q;
      && Fits(p, BlackHeight(child), ColorOf(child)) && TopBlack(p)
      && Before(p) == Before(q) && After(p) == After(q)
      && NoRedRed(child) && BlackBalanced(child)
  {
    SplitRedBlack(x, q);
    var child := if x.left.Node? then x.left else x.right;
    var p := if IsBlack(x) then RemoveFix(x, q, BlackHeight(x)) else q;
    assert BlackHeight(x.left) == 0 && BlackHeight(x.right) == 0;
    if IsBlack(x) {
      RemoveFixCorrect(x, q, BlackHeight(x));
    } else {
      assert child == Leaf;
    }
    if ColorOf(child) == Black {
      FitsBlack(p, 0);
    }
  }

  /**
   * Unlinking keeps the red-black invariants and leaves the in-order
   * sequence with the node's value taken out.
   */
  lemma UnlinkCorrect(x: Tree, q: seq<Frame>)
    requires x.Node? && (x.left.Leaf? || x.right.Leaf?)
    requires IsRedBlack(Plug(x, q))
    ensures IsRedBlack(Unlink(x, q))
    ensures InOrder(Unlink(x, q)) == Before(q) + InOrder(x.left) + InOrder(x.right) + After(q)
  {
    SplitRedBlack(x, q);
    UnlinkPath(x, q);
    var child := if x.left.Node? then x.left else x.right;
    var Lx, Rx := InOrder(x.left), InOrder(x.right);
    assert InOrder(child) == Lx + Rx;
    var p := if IsBlack(x) then RemoveFix(x, q, BlackHeight(x)) else q;
    var u := Unlink(x, q);
    if p == [] {
      assert u == if child.Leaf? then Leaf else child.(color := Black);
      assert InOrder(u) == Lx + Rx;
      assert Before(q) == [] && After(q) == [];
      assert InOrder(u) == Before(q) + Lx + Rx + After(q);
    } else {
      assert u == Plug(child, p);
      PlugRedBlack(child, p);
      PlugInOrder(child, p);
      Regroup3(Before(q), Lx, Rx, After(q));
    }
  }

  /**
   * Remove from a valid tree: nothing happens exactly when the value is not
   * stored; otherwise one occurrence of it is taken out of the in-order
   * sequence, the node returned holds it, and the tree is again valid.
   */
  lemma RemoveCorrect(t: Tree, v: int, allowDup: bool)
    requires Valid(t, allowDup)
    ensures Remove(t, v).1.None? <==> v !in InOrder(t)
    ensures Remove(t, v).1.None? ==> Remove(t, v).0 == t
    ensures Remove(t, v).1.Some? ==> Valid(Remove(t, v).0, allowDup)
    ensures Remove(t, v).1.Some? ==> RemovedAt(InOrder(t), InOrder(Remove(t, v).0), v)
    ensures Remove(t, v).1.Some? ==>
      multiset(InOrder(Remove(t, v).0)) == multiset(InOrder(t)) - multiset{v}
  {
    var s := InOrder(t);
    if !allowDup {
      StrictlySortedIsSorted(s);
    }
    LocateFinds(t, v, []);
    if t.Node? {
      match Locate(t, v, [])
      case None =>
      case Some((cur, p)) =>
        assert Plug(t, []) == t;
        var (x, q) := SwapWithSuccessor(cur, p);
        SwapInOrder(cur, p);
        SwapRedBlack(cur, p);
        UnlinkCorrect(x, q);
        var t' := Unlink(x, q);
        assert Remove(t, v).0 == t';
        RemovedAtOrdered(s, InOrder(t'), v);
        RemovedAtMultiset(s, InOrder(t'), v);
    }
  }

  /** Without duplicates, a second Remove of the same value finds nothing. */
  lemma RemoveTwice(t: Tree, v: int)
    requires Valid(t, false) && v in InOrder(t)
    ensures IsRedBlack(Remove(t, v).0)
    ensures Remove(Remove(t, v).0, v).1.None?
  {
    RemoveCorrect(t, v, false);
    var t' := Remove(t, v).0;
    RemovedAtOrdered(InOrder(t), InOrder(t'), v);
    RemoveCorrect(t', v, false);
  }

  // ------------------------------------------------ a sequence of removals

  /**
   * Remove each value of `vs` in turn; the flags say which calls found
   * their value (the source's non-null result).
   */
  function RemoveAll(t: Tree, vs: seq<int>, ghost allowDup: bool): (r: (Tree, seq<bool>))
    requires Valid(t, allowDup)
    ensures Valid(r.0, allowDup) && |r.1| == |vs|
    decreases |vs|
  {
    if vs == [] then (t, [])
    else
      RemoveStep(t, vs[0], allowDup);
      var once := Remove(t, vs[0]);
      var rest := RemoveAll(once.0, vs[1..], allowDup);
      (rest.0, [once.1.Some?] + rest.1)
  }

  /** What RemoveCorrect says about one call, in multiset terms only. */
  lemma RemoveStep(t: Tree, v: int, allowDup: bool)
    requires Valid(t, allowDup)
    ensures Valid(Remove(t, v).0, allowDup)
    ensures Remove(t, v).1.Some? <==> v in multiset(InOrder(t))
    ensures multiset(InOrder(Remove(t, v).0)) == multiset(InOrder(t)) - multiset{v}
  {
    RemoveCorrect(t, v, allowDup);
  }

  /** A tree is empty exactly when it stores nothing. */
  lemma LeafIffEmpty(t: Tree)
    ensures t.Leaf? <==> multiset(InOrder(t)) == multiset{}
  {
    if t.Node? {
      assert t.value in multiset(InOrder(t));
    }
  }

  /**
   * After a sequence of removals the tree stores the old multiset minus the
   * values removed (an absent value removes nothing), and call i finds its
   * value exactly when it is still stored after the first i calls.
   */
  lemma {:induction false} RemoveAllCorrect(t: Tree, vs: seq<int>, allowDup: bool)
    requires Valid(t, allowDup)
    ensures multiset(InOrder(RemoveAll(t, vs, allowDup).0)) == multiset(InOrder(t)) - multiset(vs)
    ensures forall i | 0 <= i < |vs| ::
      RemoveAll(t, vs, allowDup).1[i] <==> vs[i] in multiset(InOrder(t)) - multiset(vs[..i])
    decreases |vs|
  {
    if vs == [] {
      assert multiset(vs) == multiset{};
    } else {
      var v, rest := vs[0], vs[1..];
      var m := multiset(InOrder(t));
      var t', found := RemoveAllHead(t, vs, allowDup);
      var r := RemoveAll(t, vs, allowDup);
      var r' := RemoveAll(t', rest, allowDup);
      RemoveAllCorrect(t', rest, allowDup);
      MinusHead(m, vs);
      FoundFlags(m, vs, found, r'.1);
    }
  }

  /** The first call of a removal sequence, and the tree the rest starts from. */
  lemma RemoveAllHead(t: Tree, vs: seq<int>, allowDup: bool) returns (t': Tree, found: bool)
    requires Valid(t, allowDup) && vs != []
    ensures Valid(t', allowDup)
    ensures multiset(InOrder(t')) == multiset(InOrder(t)) - multiset{vs[0]}
    ensures found <==> vs[0] in multiset(InOrder(t))
    ensures RemoveAll(t, vs, allowDup) ==
      (RemoveAll(t', vs[1..], allowDup).0, [found] + RemoveAll(t', vs[1..], allowDup).1)
  {
    RemoveStep(t, vs[0], allowDup);
    t', found := Remove(t, vs[0]).0, Remove(t, vs[0]).1.Some?;
  }

  /** The found flags of a removal sequence, one call at a time. */
  lemma FoundFlags(m: multiset<int>, vs: seq<int>, found: bool, flags: seq<bool>)
    requires vs != [] && |flags| == |vs| - 1
    requires found <==> vs[0] in m
    requires forall j | 0 <= j < |vs| - 1 ::
      flags[j] <==> vs[1..][j] in (m - multiset{vs[0]}) - multiset(vs[1..][..j])
    ensures forall i | 0 <= i < |vs| :: ([found] + flags)[i] <==> vs[i] in m - multiset(vs[..i])
  {
    forall i | 0 <= i < |vs|
      ensures ([found] + flags)[i] <==> vs[i] in m - multiset(vs[..i])
    {
      if i == 0 {
        assert vs[..0] == [];
      } else {
        assert ([found] + flags)[i] == flags[i - 1];
        FlagAt(m, vs, i, flags[i - 1]);
      }
    }
  }

  /** One later flag: the removals before it start with the first value. */
  lemma FlagAt(m: multiset<int>, vs: seq<int>, i: int, flag: bool)
    requires 0 < i < |vs|
    requires flag <==> vs[1..][i - 1] in (m - multiset{vs[0]}) - multiset(vs[1..][..i - 1])
    ensures flag <==> vs[i] in m - multiset(vs[..i])
  {
    PrefixHead(vs, i);
    MinusCons(m, vs[0], vs[1..][..i - 1]);
  }

  lemma PrefixHead(vs: seq<int>, i: int)
    requires 0 < i <= |vs|
    ensures vs[..i] == [vs[0]] + vs[1..][..i - 1]
  {
    assert vs[..i] == vs[..1] + vs[1..i];
  }

  lemma MinusHead(m: multiset<int>, vs: seq<int>)
    requires vs != []
    ensures (m - multiset{vs[0]}) - multiset(vs[1..]) == m - multiset(vs)
  {
    assert vs == [vs[0]] + vs[1..];
    MinusCons(m, vs[0], vs[1..]);
  }

  lemma MinusCons(m: multiset<int>, v: int, w: seq<int>)
    ensures (m - multiset{v}) - multiset(w) == m - multiset([v] + w)
  {
    assert multiset([v] + w) == multiset{v} + multiset(w);
  }

  /** Removing at least every stored value empties the tree. */
  lemma RemoveAllEmpties(t: Tree, vs: seq<int>, allowDup: bool)
    requires Valid(t, allowDup) && multiset(InOrder(t)) <= multiset(vs)
    ensures RemoveAll(t, vs, allowDup).0 == Leaf
  {
    RemoveAllCorrect(t, vs, allowDup);
    LeafIffEmpty(RemoveAll(t, vs, allowDup).0);
  }

  /** A strictly increasing sequence holds each value at most once. */
  lemma {:induction false} StrictlySortedOnce(s: seq<int>, x: int)
    requires StrictlySorted(s)
    ensures multiset(s)[x] <= 1
    decreases |s|
  {
    if s != [] {
      assert s == [s[0]] + s[1..];
      assert StrictlySorted(s[1..]) by {
        forall i, j | 0 <= i < j < |s[1..]| ensures s[1..][i] < s[1..][j] {
          assert s[1..][i] == s[i + 1] && s[1..][j] == s[j + 1];
        }
      }
      StrictlySortedOnce(s[1..], x);
      if x == s[0] {
        assert x !in s[1..] by {
          forall k | 0 <= k < |s[1..]| ensures s[1..][k] != x {
            assert s[1..][k] == s[k + 1];
          }
        }
      }
    }
  }

  /**
   * Without duplicates, call i of a removal sequence finds its value
   * exactly when the value was stored and no earlier call removed it.
   */
  lemma RemoveAllDistinct(t: Tree, vs: seq<int>)
    requires Valid(t, false)
    ensures forall i | 0 <= i < |vs| ::
      RemoveAll(t, vs, false).1[i] <==> vs[i] in InOrder(t) && vs[i] !in vs[..i]
  {
    RemoveAllCorrect(t, vs, false);
    var m := multiset(InOrder(t));
    forall i | 0 <= i < |vs|
      ensures vs[i] in m - multiset(vs[..i]) <==> vs[i] in InOrder(t) && vs[i] !in vs[..i]
    {
      StrictlySortedOnce(InOrder(t), vs[i]);
    }
  }

  /** Without duplicates, naming every stored value at least once empties the tree. */
  lemma RemoveAllCovers(t: Tree, vs: seq<int>)
    requires Valid(t, false) && forall x | x in InOrder(t) :: x in vs
    ensures RemoveAll(t, vs, false).0 == Leaf
  {
    RemoveAllCorrect(t, vs, false);
    CoveredEmpty(InOrder(t), vs);
    LeafIffEmpty(RemoveAll(t, vs, false).0);
  }

  lemma CoveredEmpty(s: seq<int>, vs: seq<int>)
    requires StrictlySorted(s) && forall x | x in s :: x in vs
    ensures multiset(s) - multiset(vs) == multiset{}
  {
    forall x ensures (multiset(s) - multiset(vs))[x] == 0
    {
      StrictlySortedOnce(s, x);
      if x in s {
        assert x in multiset(vs);
      }
    }
  }

  /**
   * The removal test's tree: 10 (5 (3, red 7 (6, 8)), 15 (11, 17)), all
   * black but 7.
   */
  function RemoveSampleTree(): Tree
  {
    Node(Black,
      Node(Black, Node(Black, Leaf, 3, Leaf), 5,
        Node(Red, Node(Black, Leaf, 6, Leaf), 7, Node(Black, Leaf, 8, Leaf))),
      10,
      Node(Black, Node(Black, Leaf, 11, Leaf), 15, Node(Black, Leaf, 17, Leaf)))
  }

  /** The removal order of the test, including the two values that are absent. */
  function RemoveSampleOrder(): seq<int>
  {
    [14, 3, 17, 8, 10, 6, 15, 7, 11, 5, 8]
  }

  /**
   * The removal test end to end: 14 is not found, the nine stored values
   * are each found once, the second 8 is not found, and the tree ends empty.
   */
  lemma RemoveSample(t: Tree, vs: seq<int>)
    requires t == RemoveSampleTree() && vs == RemoveSampleOrder()
    ensures Valid(t, false)
    ensures RemoveAll(t, vs, false) ==
      (Leaf, [false, true, true, true, true, true, true, true, true, true, false])
  {
    RemoveSampleValid(t);
    var s := InOrder(t);
    SampleOrderFresh(s, vs);
    assert RemoveAll(t, vs, false).0 == Leaf by {
      RemoveAllCovers(t, vs);
    }
    var f := RemoveAll(t, vs, false).1;
    assert f == [false, true, true, true, true, true, true, true, true, true, false] by {
      RemoveAllDistinct(t, vs);
      forall i | 0 <= i < |f| ensures f[i] == (1 <= i < 10)
      {
        assert f[i] <==> vs[i] in s && vs[i] !in vs[..i];
      }
      SampleFlags(f);
    }
  }

  lemma SampleFlags(f: seq<bool>)
    requires |f| == 11 && forall i | 0 <= i < |f| :: f[i] == (1 <= i < 10)
    ensures f == [false, true, true, true, true, true, true, true, true, true, false]
  {
  }

  /** The removal test's tree is a valid tree holding 3 5 6 7 8 10 11 15 17. */
  lemma RemoveSampleValid(t: Tree)
    requires t == RemoveSampleTree()
    ensures Valid(t, false) && InOrder(t) == [3, 5, 6, 7, 8, 10, 11, 15, 17]
  {
    assert InOrder(t) == [3, 5, 6, 7, 8, 10, 11, 15, 17];
    SampleSorted(InOrder(t));
    assert IsRedBlack(t) by {
      assert BlackHeight(t.left) == 2 && BlackHeight(t.right) == 2;
    }
  }

  lemma SampleSorted(s: seq<int>)
    requires s == [3, 5, 6, 7, 8, 10, 11, 15, 17]
    ensures StrictlySorted(s)
  {
  }

  /** In the removal order, exactly calls 1 to 9 name a stored value not named before. */
  lemma SampleOrderFresh(s: seq<int>, vs: seq<int>)
    requires s == [3, 5, 6, 7, 8, 10, 11, 15, 17] && vs == RemoveSampleOrder()
    ensures forall i | 0 <= i < |vs| :: (vs[i] in s && vs[i] !in vs[..i]) <==> 1 <= i < 10
    ensures forall x | x in s :: x in vs
  {
    assert vs[..10] == [14, 3, 17, 8, 10, 6, 15, 7, 11, 5];
    forall i | 1 <= i < 10 ensures vs[i] !in vs[..i]
    {
      assert vs[..i] == vs[..10][..i];
    }
  }

  lemma Regroup<T>(a: seq<T>, b: seq<T>, c: seq<T>, d: seq<T>, e: seq<T>)
    ensures a + b + (c + d + e) == a + (b + c + d) + e
  {
  }

  lemma Regroup3<T>(a: seq<T>, b: seq<T>, c: seq<T>, d: seq<T>)
    ensures a + (b + c) + d == a + b + c + d
  {
  }

  lemma Regroup2<T>(a: seq<T>, b: seq<T>, c: seq<T>, d: seq<T>, e: seq<T>)
    ensures a + (b + c) + d + e == a + (b + c + d) + e
  {
  }
}
