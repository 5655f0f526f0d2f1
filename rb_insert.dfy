/**
 * Value model of Insert and __Insert_Adjust (include/tree/RBTree.h:285-399)
 * and the proofs that insertion keeps the search-tree order and the
 * red-black invariants and adds exactly one occurrence of the value.
 */
module RedBlackInsert {
  import opened RedBlack

  /**
   * The descent loop of Insert: stop with `None` when duplicates are not
   * allowed and the value is met, otherwise go left when the value is less
   * than or equal to the node's (ties descend left) and right otherwise,
   * until a null link is reached; the result is the parent chain of that link.
   */
  function Descend(t: Tree, v: int, allowDup: bool, path: seq<Frame>): (r: Option<seq<Frame>>)
    ensures r.Some? ==> Plug(Leaf, r.value) == Plug(t, path)
    ensures r.Some? ==> |r.value| >= |path| + (if t.Node? then 1 else 0)
    ensures r.None? ==> !allowDup && t.Node?
  {
    match t
    case Leaf => Some(path)
    case Node(c, l, w, r) =>
      if !allowDup && v == w then None
      else if v <= w then Descend(l, v, allowDup, [LeftOf(c, w, r)] + path)
      else Descend(r, v, allowDup, [RightOf(l, c, w)] + path)
  }

  /**
   * __Insert_Adjust, given the red node `f` and its parent chain; the result
   * is the whole tree after the adjustment.  The chain's outermost node (the
   * root) is black, which is why a red parent always has a parent of its own
   * (the source's `assert(grand != nullptr)`).
   */
  function InsertFix(f: Tree, path: seq<Frame>): (r: Tree)
    requires f.Node? && f.color == Red
    requires TopBlack(path)
    ensures r.Node? && r.color == Black
    decreases |path|
  {
    if path == [] then
      // no parent: cur is the root and turns black
      f.(color := Black)
    else if path[0].color == Black then
      // case 1: black parent, nothing to do
      PlugTop(f, path);
      Plug(f, path)
    else
      var parent := Wrap(f, path[0]);
      match path[1]
      case LeftOf(_, gv, uncle) =>
        if IsRed(uncle) then
          // case 2: red uncle; recolour and continue at the grandparent
          InsertFix(Node(Red, parent.(color := Black), gv, uncle.(color := Black)), path[2..])
        else
          // case 3: black uncle; rotate the grandparent's subtree once or twice
          var top := RotateUnderLeft(f, path[0], gv, uncle);
          PlugBlackTop(top, path[2..]);
          Plug(top, path[2..])
      case RightOf(uncle, _, gv) =>
        if IsRed(uncle) then
          InsertFix(Node(Red, uncle.(color := Black), gv, parent.(color := Black)), path[2..])
        else
          var top := RotateUnderRight(uncle, gv, f, path[0]);
          PlugBlackTop(top, path[2..]);
          Plug(top, path[2..])
  }

  /** A black subtree under a chain with a black root gives a black root. */
  lemma PlugBlackTop(f: Tree, path: seq<Frame>)
    requires f.Node? && f.color == Black && TopBlack(path)
    ensures Plug(f, path).Node? && Plug(f, path).color == Black
  {
    if path != [] {
      PlugTop(f, path);
    }
  }

  /**
   * Case 3 when the red parent (frame `fr` around `cur`) is a left child: case
   * 3.1 becomes case 3.2 by LeftRotate(parent), which rebinds `parent` to the
   * old `cur`; then the parent turns black, the grandparent red, and the
   * grandparent is rotated right.  The result replaces the grandparent.
   */
  function RotateUnderLeft(f: Tree, fr: Frame, gv: int, uncle: Tree): (r: Tree)
    requires f.Node?
    ensures InOrder(r) == InOrder(Wrap(f, fr)) + [gv] + InOrder(uncle)
    ensures r.Node? && r.color == Black
  {
    var parent := Wrap(f, fr);
    var top := if fr.RightOf? then RotateLeft(parent) else parent;
    RecolorInOrder(top, Black);
    RotateRight(Node(Red, top.(color := Black), gv, uncle))
  }

  /** The mirror image of RotateUnderLeft: the red parent is a right child. */
  function RotateUnderRight(uncle: Tree, gv: int, f: Tree, fr: Frame): (r: Tree)
    requires f.Node?
    ensures InOrder(r) == InOrder(uncle) + [gv] + InOrder(Wrap(f, fr))
    ensures r.Node? && r.color == Black
  {
    var parent := Wrap(f, fr);
    var top := if fr.LeftOf? then RotateRight(parent) else parent;
    RecolorInOrder(top, Black);
    RotateLeft(Node(Red, uncle, gv, top.(color := Black)))
  }

  /** Below a red parent, cur, its sibling and the uncle are valid subtrees of the same black height. */
  ghost predicate Case3Parts(f: Tree, fr: Frame, uncle: Tree, h: nat)
  {
    && f.Node? && f.color == Red && NoRedRed(f) && BlackBalanced(f) && BlackHeight(f) == h
    && fr.color == Red
    && NoRedRed(Sibling(fr)) && BlackBalanced(Sibling(fr)) && BlackHeight(Sibling(fr)) == h && IsBlack(Sibling(fr))
    && NoRedRed(uncle) && BlackBalanced(uncle) && BlackHeight(uncle) == h && IsBlack(uncle)
  }

  /** Case 3 yields a valid black-rooted subtree one black level higher. */
  lemma RotateUnderLeftRedBlack(f: Tree, fr: Frame, gv: int, uncle: Tree, h: nat)
    requires Case3Parts(f, fr, uncle, h)
    ensures var r := RotateUnderLeft(f, fr, gv, uncle);
      NoRedRed(r) && BlackBalanced(r) && BlackHeight(r) == h + 1 && r.color == Black
  {
    var r := RotateUnderLeft(f, fr, gv, uncle);
    var sib := Sibling(fr);
    assert BlackHeight(f.left) == h && BlackHeight(f.right) == h;
    assert IsBlack(f.left) && IsBlack(f.right);
    if fr.RightOf? {
      assert r == Node(Black, Node(Red, sib, fr.value, f.left), f.value, Node(Red, f.right, gv, uncle));
      assert NoRedRed(r.left) && NoRedRed(r.right);
      assert BlackBalanced(r.left) && BlackBalanced(r.right);
    } else {
      assert r == Node(Black, f, fr.value, Node(Red, sib, gv, uncle));
      assert NoRedRed(r.right) && BlackHeight(r.right) == h && BlackBalanced(r.right);
    }
  }

  /** The mirror image of RotateUnderLeftRedBlack. */
  lemma RotateUnderRightRedBlack(uncle: Tree, gv: int, f: Tree, fr: Frame, h: nat)
    requires Case3Parts(f, fr, uncle, h)
    ensures var r := RotateUnderRight(uncle, gv, f, fr);
      NoRedRed(r) && BlackBalanced(r) && BlackHeight(r) == h + 1 && r.color == Black
  {
    var r := RotateUnderRight(uncle, gv, f, fr);
    var sib := Sibling(fr);
    assert BlackHeight(f.left) == h && BlackHeight(f.right) == h;
    assert IsBlack(f.left) && IsBlack(f.right);
    if fr.LeftOf? {
      assert r == Node(Black, Node(Red, uncle, gv, f.left), f.value, Node(Red, f.right, fr.value, sib));
      assert NoRedRed(r.left) && NoRedRed(r.right);
      assert BlackBalanced(r.left) && BlackBalanced(r.right);
    } else {
      assert r == Node(Black, Node(Red, uncle, gv, sib), fr.value, f);
      assert NoRedRed(r.left) && BlackHeight(r.left) == h && BlackBalanced(r.left);
    }
  }

  /**
   * Insert: an empty tree gets a single black root; otherwise the descent
   * either rejects a duplicate or hangs a new red node at the null link it
   * reached and adjusts the tree from there.  The result is the success flag
   * and the new tree.  `IsBlack(t)` is the part of the red-black invariant the
   * adjustment relies on for its `grand != nullptr` assertion.
   */
  function Insert(t: Tree, v: int, allowDup: bool): (r: (bool, Tree))
    requires IsBlack(t)
    ensures t.Leaf? ==> r == (true, Node(Black, Leaf, v, Leaf))
    ensures !r.0 ==> r.1 == t
  {
    if t.Leaf? then (true, Node(Black, Leaf, v, Leaf))
    else
      match Descend(t, v, allowDup, [])
      case None => (false, t)
      case Some(path) =>
        PlugTop(Leaf, path);
        (true, InsertFix(Node(Red, Leaf, v, Leaf), path))
  }

  // ------------------------------------------------------------ order proofs

  ghost predicate Below(s: seq<int>, v: int)
  {
    forall x | x in s :: x < v
  }

  ghost predicate Above(s: seq<int>, v: int, allowDup: bool)
  {
    forall x | x in s :: if allowDup then v <= x else v < x
  }

  /**
   * The descent keeps everything left of the current link below the value and
   * everything right of it above (or, with duplicates, not below) the value,
   * and it rejects only a value that is stored.
   */
  lemma {:induction false} DescendBounds(t: Tree, v: int, allowDup: bool, path: seq<Frame>)
    requires Sorted(Before(path) + InOrder(t) + After(path))
    requires Below(Before(path), v) && Above(After(path), v, allowDup)
    ensures Descend(t, v, allowDup, path).Some? ==>
      var p := Descend(t, v, allowDup, path).value;
      Below(Before(p), v) && Above(After(p), v, allowDup)
    ensures Descend(t, v, allowDup, path).None? ==> v in InOrder(t)
  {
    match t
    case Leaf =>
    case Node(c, l, w, r) =>
      if !allowDup && v == w {
      } else if v <= w {
        DescendLeftStep(c, l, w, r, v, allowDup, path);
        DescendBounds(l, v, allowDup, [LeftOf(c, w, r)] + path);
      } else {
        DescendRightStep(c, l, w, r, v, allowDup, path);
        DescendBounds(r, v, allowDup, [RightOf(l, c, w)] + path);
      }
  }

  /** One step of the descent to the left keeps the bounds around the link. */
  lemma DescendLeftStep(c: Color, l: Tree, w: int, r: Tree, v: int, allowDup: bool, path: seq<Frame>)
    requires Sorted(Before(path) + InOrder(Node(c, l, w, r)) + After(path))
    requires Below(Before(path), v) && Above(After(path), v, allowDup)
    requires v <= w && (allowDup || v != w)
    ensures var p' := [LeftOf(c, w, r)] + path;
      Sorted(Before(p') + InOrder(l) + After(p')) && Below(Before(p'), v) && Above(After(p'), v, allowDup)
  {
    var p' := [LeftOf(c, w, r)] + path;
    var b, a := Before(path), After(path);
    assert p'[1..] == path;
    assert Before(p') == b;
    assert After(p') == [w] + (InOrder(r) + a) by {
      assert After(p') == ([w] + InOrder(r)) + a;
      SplitAround(b, [], [w], InOrder(r), a);
    }
    LeftBounds(b, InOrder(l), w, InOrder(r), a, v, allowDup);
  }

  /** One step of the descent to the right keeps the bounds around the link. */
  lemma DescendRightStep(c: Color, l: Tree, w: int, r: Tree, v: int, allowDup: bool, path: seq<Frame>)
    requires Sorted(Before(path) + InOrder(Node(c, l, w, r)) + After(path))
    requires Below(Before(path), v) && Above(After(path), v, allowDup)
    requires w < v
    ensures var p' := [RightOf(l, c, w)] + path;
      Sorted(Before(p') + InOrder(r) + After(p')) && Below(Before(p'), v) && Above(After(p'), v, allowDup)
  {
    var p' := [RightOf(l, c, w)] + path;
    var b, a := Before(path), After(path);
    assert p'[1..] == path;
    assert Before(p') == b + (InOrder(l) + [w]);
    assert After(p') == a;
    RightBounds(b, InOrder(l), w, InOrder(r), a, v);
  }

  lemma SplitAround<T>(b: seq<T>, l: seq<T>, w: seq<T>, r: seq<T>, a: seq<T>)
    ensures b + (l + w + r) + a == (b + l) + w + (r + a)
    ensures (b + l) + w + (r + a) == b + (l + w + r) + a
    ensures b + (l + w) + r + a == (b + l) + w + (r + a)
    ensures (w + r) + a == w + (r + a)
    ensures (b + l) + (w + (r + a)) == (b + l) + w + (r + a)
  {
  }

  lemma LeftBounds(b: seq<int>, l: seq<int>, w: int, r: seq<int>, a: seq<int>, v: int, allowDup: bool)
    requires Sorted(b + (l + [w] + r) + a)
    requires Above(a, v, allowDup) && v <= w && (allowDup || v != w)
    ensures Sorted(b + l + ([w] + (r + a)))
    ensures Above([w] + (r + a), v, allowDup)
  {
    SplitAround(b, l, [w], r, a);
    SortedSplit(b + l, w, r + a);
    forall x | x in [w] + (r + a) ensures if allowDup then v <= x else v < x {
      if x != w {
        assert x in r + a;
      }
    }
  }

  lemma RightBounds(b: seq<int>, l: seq<int>, w: int, r: seq<int>, a: seq<int>, v: int)
    requires Sorted(b + (l + [w] + r) + a)
    requires Below(b, v) && w < v
    ensures Sorted(b + (l + [w]) + r + a)
    ensures Below(b + (l + [w]), v)
  {
    SplitAround(b, l, [w], r, a);
    SortedSplit(b + l, w, r + a);
    forall x | x in b + (l + [w]) ensures x < v {
      if x != w {
        assert x in b + l;
      }
    }
  }

  /** Putting a value between a lower and an upper part keeps the order. */
  lemma {:induction false} InsertBetween(a: seq<int>, v: int, b: seq<int>, allowDup: bool)
    requires if allowDup then Sorted(a + b) else StrictlySorted(a + b)
    requires Below(a, v) && Above(b, v, allowDup)
    ensures if allowDup then Sorted(a + [v] + b) else StrictlySorted(a + [v] + b)
  {
    var s := a + [v] + b;
    var u := a + b;
    forall i, j | 0 <= i < j < |s|
      ensures s[i] <= s[j] && (!allowDup ==> s[i] < s[j])
    {
      if j < |a| {
        assert s[i] == u[i] && s[j] == u[j];
        assert u[i] <= u[j] && (!allowDup ==> u[i] < u[j]);
      } else if j == |a| {
        assert s[i] == a[i] && a[i] in a;
      } else if i <= |a| {
        var k := j - |a| - 1;
        assert s[j] == b[k] && b[k] in b;
        if i < |a| {
          assert s[i] == a[i] && a[i] in a;
        }
      } else {
        assert s[i] == u[i - 1] && s[j] == u[j - 1];
        assert u[i - 1] <= u[j - 1] && (!allowDup ==> u[i - 1] < u[j - 1]);
      }
    }
  }

  /** The adjustment only recolours and rotates: the in-order sequence is kept. */
  lemma {:induction false} InsertFixInOrder(f: Tree, path: seq<Frame>)
    requires f.Node? && f.color == Red && TopBlack(path)
    ensures InOrder(InsertFix(f, path)) == InOrder(Plug(f, path))
    decreases |path|
  {
    if path == [] {
    } else if path[0].color == Black {
    } else {
      var parent := Wrap(f, path[0]);
      var g := Wrap(parent, path[1]);
      assert Plug(f, path) == Plug(g, path[2..]) by {
        assert path[1..][1..] == path[2..];
      }
      PlugInOrder(g, path[2..]);
      match path[1]
      case LeftOf(_, gv, uncle) =>
        if IsRed(uncle) {
          var n := Node(Red, parent.(color := Black), gv, uncle.(color := Black));
          InsertFixInOrder(n, path[2..]);
          PlugInOrder(n, path[2..]);
        } else {
          PlugInOrder(RotateUnderLeft(f, path[0], gv, uncle), path[2..]);
        }
      case RightOf(uncle, _, gv) =>
        if IsRed(uncle) {
          var n := Node(Red, uncle.(color := Black), gv, parent.(color := Black));
          InsertFixInOrder(n, path[2..]);
          PlugInOrder(n, path[2..]);
        } else {
          PlugInOrder(RotateUnderRight(uncle, gv, f, path[0]), path[2..]);
        }
    }
  }

  // ------------------------------------------------------- red-black proofs

  /**
   * The adjustment repairs the one possible violation, a red node under a red
   * parent: if the focus is a valid red subtree and the frames above fit it
   * everywhere except for its own colour, the result is a red-black tree.
   */
  lemma {:induction false} InsertFixRedBlack(f: Tree, path: seq<Frame>)
    requires f.Node? && f.color == Red && NoRedRed(f) && BlackBalanced(f)
    requires Fits(path, BlackHeight(f), Black) && TopBlack(path)
    ensures IsRedBlack(InsertFix(f, path))
    decreases |path|
  {
    var h := BlackHeight(f);
    if path == [] {
    } else if path[0].color == Black {
      assert Fits(path, h, Red);
      PlugRedBlack(f, path);
    } else {
      var parent := Wrap(f, path[0]);
      assert Fits(path[1..], h, Red);
      assert path[1..][1..] == path[2..];
      match path[1]
      case LeftOf(gc, gv, uncle) =>
        assert Fits(path[2..], h + 1, Black);
        if IsRed(uncle) {
          var n := Node(Red, parent.(color := Black), gv, uncle.(color := Black));
          assert BlackHeight(n) == h + 1;
          InsertFixRedBlack(n, path[2..]);
        } else {
          RotateUnderLeftRedBlack(f, path[0], gv, uncle, h);
          PlugRedBlack(RotateUnderLeft(f, path[0], gv, uncle), path[2..]);
        }
      case RightOf(uncle, gc, gv) =>
        assert Fits(path[2..], h + 1, Black);
        if IsRed(uncle) {
          var n := Node(Red, uncle.(color := Black), gv, parent.(color := Black));
          assert BlackHeight(n) == h + 1;
          InsertFixRedBlack(n, path[2..]);
        } else {
          RotateUnderRightRedBlack(uncle, gv, f, path[0], h);
          PlugRedBlack(RotateUnderRight(uncle, gv, f, path[0]), path[2..]);
        }
    }
  }

  /** Insert at the null link the descent found: order, content and colours of the result. */
  lemma {:induction false} InsertAtLink(t: Tree, v: int, allowDup: bool, p: seq<Frame>)
    requires Valid(t, allowDup) && t.Node?
    requires Descend(t, v, allowDup, []) == Some(p)
    requires Below(Before(p), v) && Above(After(p), v, allowDup)
    ensures Insert(t, v, allowDup).0
    ensures InOrder(t) == Before(p) + After(p)
    ensures InOrder(Insert(t, v, allowDup).1) == Before(p) + [v] + After(p)
    ensures Valid(Insert(t, v, allowDup).1, allowDup)
  {
    var n := Node(Red, Leaf, v, Leaf);
    PlugTop(Leaf, p);
    var t' := InsertFix(n, p);
    assert Insert(t, v, allowDup).1 == t';
    assert Plug(t, []) == t;
    PlugInOrder(Leaf, p);
    assert InOrder(t) == Before(p) + After(p);
    InsertFixInOrder(n, p);
    PlugInOrder(n, p);
    assert InOrder(t') == Before(p) + [v] + After(p);
    InsertBetween(Before(p), v, After(p), allowDup);
    SplitRedBlack(Leaf, p);
    InsertFixRedBlack(n, p);
  }

  /**
   * `s'` is `s` with `v` placed at a position after every smaller value and
   * before every value not smaller.
   */
  ghost predicate InsertedBetween(s: seq<int>, s': seq<int>, v: int)
  {
    exists k | 0 <= k <= |s| ::
      && s' == s[..k] + [v] + s[k..]
      && Below(s[..k], v)
      && Above(s[k..], v, true)
  }

  /** Placing a value in a sequence adds exactly one occurrence of it. */
  lemma InsertedBetweenMultiset(s: seq<int>, s': seq<int>, v: int)
    requires InsertedBetween(s, s', v)
    ensures multiset(s') == multiset(s) + multiset{v}
  {
    var k :| 0 <= k <= |s| && s' == s[..k] + [v] + s[k..];
    assert s == s[..k] + s[k..];
  }

  /** The position the descent finds is the one `InsertedBetween` describes. */
  lemma InsertAtLinkBetween(t: Tree, v: int, allowDup: bool, p: seq<Frame>)
    requires Valid(t, allowDup) && t.Node?
    requires Descend(t, v, allowDup, []) == Some(p)
    requires Below(Before(p), v) && Above(After(p), v, allowDup)
    ensures Insert(t, v, allowDup).0
    ensures Valid(Insert(t, v, allowDup).1, allowDup)
    ensures InsertedBetween(InOrder(t), InOrder(Insert(t, v, allowDup).1), v)
  {
    InsertAtLink(t, v, allowDup, p);
    var s := InOrder(t);
    var k := |Before(p)|;
    assert s[..k] == Before(p) && s[k..] == After(p);
    assert Above(s[k..], v, true);
  }

  /** Insert fails exactly on a value already stored when duplicates are not allowed. */
  lemma InsertSucceeds(t: Tree, v: int, allowDup: bool)
    requires Valid(t, allowDup)
    ensures Insert(t, v, allowDup).0 <==> allowDup || v !in InOrder(t)
  {
    var s := InOrder(t);
    if !allowDup {
      StrictlySortedIsSorted(s);
    }
    if t.Node? {
      assert Before([]) + InOrder(t) + After([]) == s;
      DescendBounds(t, v, allowDup, []);
      match Descend(t, v, allowDup, [])
      case None =>
      case Some(p) =>
        InsertAtLink(t, v, allowDup, p);
        if !allowDup {
          assert v !in Before(p) + After(p);
        }
    }
  }

  /** A successful insert places the value between its neighbours and keeps the tree valid. */
  lemma InsertPlaced(t: Tree, v: int, allowDup: bool)
    requires Valid(t, allowDup)
    requires Insert(t, v, allowDup).0
    ensures Valid(Insert(t, v, allowDup).1, allowDup)
    ensures InsertedBetween(InOrder(t), InOrder(Insert(t, v, allowDup).1), v)
  {
    var s := InOrder(t);
    if !allowDup {
      StrictlySortedIsSorted(s);
    }
    if t.Leaf? {
      assert InOrder(Node(Black, Leaf, v, Leaf)) == s[..0] + [v] + s[0..];
      assert InsertedBetween(s, [v], v);
    } else {
      assert Before([]) + InOrder(t) + After([]) == s;
      DescendBounds(t, v, allowDup, []);
      var p := Descend(t, v, allowDup, []).value;
      InsertAtLinkBetween(t, v, allowDup, p);
    }
  }

  /**
   * Insert into a valid tree: it fails exactly on a duplicate that is not
   * allowed, leaving the tree unchanged; otherwise the value lands after
   * every smaller value and before every value not smaller (ties go left),
   * exactly one occurrence is added, and the result is again valid.
   */
  lemma InsertCorrect(t: Tree, v: int, allowDup: bool)
    requires Valid(t, allowDup)
    ensures Insert(t, v, allowDup).0 <==> allowDup || v !in InOrder(t)
    ensures !Insert(t, v, allowDup).0 ==> Insert(t, v, allowDup).1 == t
    ensures Insert(t, v, allowDup).0 ==> Valid(Insert(t, v, allowDup).1, allowDup)
    ensures Insert(t, v, allowDup).0 ==>
      InsertedBetween(InOrder(t), InOrder(Insert(t, v, allowDup).1), v)
    ensures Insert(t, v, allowDup).0 ==>
      multiset(InOrder(Insert(t, v, allowDup).1)) == multiset(InOrder(t)) + multiset{v}
  {
    InsertSucceeds(t, v, allowDup);
    if Insert(t, v, allowDup).0 {
      InsertPlaced(t, v, allowDup);
      InsertedBetweenMultiset(InOrder(t), InOrder(Insert(t, v, allowDup).1), v);
    }
  }
}
