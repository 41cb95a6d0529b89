/**
 * AVL_delete (avl.c:613-1174) as functions over the recorded path.
 *
 * The source first splices the node out (directly when it has at most one
 * child, otherwise by moving its in-order successor or predecessor into its
 * place), then walks its stack upward.  At each node `a` it rotates when the
 * balance reached +2 or -2, and, while the height-change flag `h` is -1,
 * adjusts the parent's balance and decides whether the parent shrank too.
 */
module Deletion {
  import opened Order
  import opened Trees

  /** A subtree together with the height-change flag the source calls `h`. */
  datatype Carry<D> = Carry(t: Tree<D>, h: int)

  /**
   * The rotation step at node t (avl.c:896-1133).  Balance +2: scenario 1
   * (single rotation) when bal(b) >= 0, scenario 2 (double rotation)
   * otherwise; -2 is the mirror image.  Any other balance leaves t and h as
   * they are.  Shapes with a missing child never reach a rotation.
   */
  function Settle<D>(t: Tree<D>, h: int): (c: Carry<D>)
    ensures Inorder(c.t) == Inorder(t) && Ids(c.t) == Ids(t)
  {
    match t
    case Leaf => Carry(t, h)
    case Node(s1, ai, ad, ab, b) =>
      if ab == 2 then
        match b
        case Leaf => Carry(t, h)
        case Node(bl, bi, bd, bb, br) =>
          if bb >= 0 then
            // scenario 1: b becomes the root, a its left child
            Rotation(s1, ai, ad, 0, bl, bi, bd, 0, br, ab, bb);
            if bb == 0 then Carry(Node(Node(s1, ai, ad, 1, bl), bi, bd, -1, br), 0)
            else Carry(Node(Node(s1, ai, ad, 0, bl), bi, bd, 0, br), -1)
          else
            match bl
            case Leaf => Carry(t, h)
            case Node(s2, ci, cd, cb, s3) =>
              // scenario 2: c becomes the root, a and b its children
              var na := if cb == 1 then -1 else 0;
              var nb := if cb == -1 then 1 else 0;
              Rotation(s2, ci, cd, cb, s3, bi, bd, bb, br, cb, nb);
              Rotation(s1, ai, ad, na, s2, ci, cd, 0, Node(s3, bi, bd, nb, br), ab, cb);
              Carry(Node(Node(s1, ai, ad, na, s2), ci, cd, 0, Node(s3, bi, bd, nb, br)), -1)
      else if ab == -2 then
        match s1
        case Leaf => Carry(t, h)
        case Node(bl, bi, bd, bb, br) =>
          if bb <= 0 then
            // scenario 1 mirrored: b becomes the root, a its right child
            Rotation(bl, bi, bd, bb, br, ai, ad, ab, b, 0, 0);
            if bb == 0 then Carry(Node(bl, bi, bd, 1, Node(br, ai, ad, -1, b)), 0)
            else Carry(Node(bl, bi, bd, 0, Node(br, ai, ad, 0, b)), -1)
          else
            match br
            case Leaf => Carry(t, h)
            case Node(s3, ci, cd, cb, s2) =>
              // scenario 2 mirrored: c becomes the root, b and a its children
              var na := if cb == -1 then 1 else 0;
              var nb := if cb == 1 then -1 else 0;
              Rotation(bl, bi, bd, nb, s3, ci, cd, cb, s2, bb, cb);
              Rotation(Node(bl, bi, bd, nb, s3), ci, cd, cb, s2, ai, ad, ab, b, 0, na);
              Carry(Node(Node(bl, bi, bd, nb, s3), ci, cd, 0, Node(s2, ai, ad, na, b)), -1)
      else Carry(t, h)
  }

  /**
   * Propagating to the parent frame f (avl.c:1138-1161, and 677-696,
   * 768-781 for the first one): if the child below shrank, the parent's
   * balance moves one step away from that side, and the parent shrank too
   * exactly when its balance became 0.
   */
  function Climb<D>(f: Frame<D>, t: Tree<D>, h: int): (c: Carry<D>)
    ensures Inorder(c.t) == Inorder(PlugOne(f, t)) && Ids(c.t) == Ids(PlugOne(f, t))
    ensures c.t.Node? && c.t.id == f.id
  {
    if h != 0 then
      var b := if f.goLeft then f.bal + 1 else f.bal - 1;
      Carry(PlugOne(f.(bal := b), t), if b == 0 then -1 else 0)
    else
      Carry(PlugOne(f, t), h)
  }

  /**
   * The upward loop of avl.c:883-1162: settle the current node, then climb
   * to its parent, until the top of the tree has been settled.
   */
  function Fixup<D>(z: seq<Frame<D>>, t: Tree<D>, h: int): (c: Carry<D>)
    ensures Inorder(c.t) == Inorder(Plug(z, t)) && Ids(c.t) == Ids(Plug(z, t))
    decreases |z|
  {
    var s := Settle(t, h);
    if |z| == 0 then s
    else
      var up := Climb(z[|z| - 1], s.t, s.h);
      InorderPlug(z[..|z| - 1], up.t);
      InorderPlug(z[..|z| - 1], PlugOne(z[|z| - 1], t));
      IdsPlug(z[..|z| - 1], up.t);
      IdsPlug(z[..|z| - 1], PlugOne(z[|z| - 1], t));
      Fixup(z[..|z| - 1], up.t, up.h)
  }

  // ------------------------------------------------------------------
  // The in-order neighbour (avl.c:728-755)
  // ------------------------------------------------------------------

  /** The path from t down its left spine to its left-most node. */
  function MinPath<D>(t: Tree<D>): (r: seq<Frame<D>>)
    requires t.Node?
  {
    if t.left.Leaf? then [] else [Step(t, true)] + MinPath(t.left)
  }

  /** The subtree rooted at the left-most node of t. */
  function MinSub<D>(t: Tree<D>): (m: Tree<D>)
    requires t.Node?
    ensures m.Node? && m.left.Leaf?
  {
    if t.left.Leaf? then t else MinSub(t.left)
  }

  /** The path from t down its right spine to its right-most node. */
  function MaxPath<D>(t: Tree<D>): (r: seq<Frame<D>>)
    requires t.Node?
  {
    if t.right.Leaf? then [] else [Step(t, false)] + MaxPath(t.right)
  }

  /** The subtree rooted at the right-most node of t. */
  function MaxSub<D>(t: Tree<D>): (m: Tree<D>)
    requires t.Node?
    ensures m.Node? && m.right.Leaf?
  {
    if t.right.Leaf? then t else MaxSub(t.right)
  }

  /**
   * The path the fix-up loop starts from, and the subtree that takes the
   * removed node's place (avl.c:670-801).  With at most one child, the child
   * replaces the node.  With two, the successor (balance > 0) or predecessor
   * m takes over the node's position, balance and children, and m's one
   * child takes m's old place; the frame of the removed node then carries
   * m's index and payload, as the source's overwrite of the stack slot
   * cpos does.
   */
  function Splice<D>(z: seq<Frame<D>>, t: Tree<D>): (seq<Frame<D>>, Tree<D>)
    requires t.Node?
  {
    if t.left.Leaf? || t.right.Leaf? then
      (z, if t.left.Leaf? then t.right else t.left)
    else if t.bal > 0 then
      var m := MinSub(t.right);
      (z + [MovedFrame(t, m, false)] + MinPath(t.right), m.right)
    else
      var m := MaxSub(t.left);
      (z + [MovedFrame(t, m, true)] + MaxPath(t.left), m.left)
  }

  /**
   * The tree AVL_delete leaves behind when the search for the key ended at
   * the node t below path z, and the final value of h: -1 exactly when the
   * whole tree got shorter (avl.c:1169-1170).
   */
  function KnuthDelete<D>(z: seq<Frame<D>>, t: Tree<D>): (r: Carry<D>)
    requires t.Node?
  {
    var (w, s) := Splice(z, t);
    if |w| == 0 then Carry(s, -1)
    else
      var start := Climb(w[|w| - 1], s, -1);
      Fixup(w[..|w| - 1], start.t, start.h)
  }

  // ------------------------------------------------------------------
  // Correctness of the upward loop
  // ------------------------------------------------------------------

  /**
   * The node the loop is looking at: both subtrees are AVL and its balance
   * is exact, but may have reached +2 or -2.
   */
  ghost predicate NearAVL<D>(t: Tree<D>) {
    t.Node? && AVL(t.left) && AVL(t.right)
    && t.bal == Height(t.right) - Height(t.left) && -2 <= t.bal <= 2
  }

  /**
   * What h means at node t, whose subtree was H high before the deletion:
   * with a balance in -1..1 the subtree is now H + h high; at +2 or -2 it
   * still is H high and h is 0 until the rotation decides.
   */
  ghost predicate Pending<D>(t: Tree<D>, H: int, h: int) {
    t.Node?
    && (-1 <= t.bal <= 1 ==> (h == 0 || h == -1) && Height(t) == H + h)
    && (t.bal == 2 || t.bal == -2 ==> h == 0 && Height(t) == H)
  }

  /** The rotation cases (avl.c:896-1133) restore the AVL invariant and report the height change. */
  lemma SettleCorrect<D>(t: Tree<D>, H: int, h: int)
    requires NearAVL(t) && Pending(t, H, h)
    ensures AVL(Settle(t, h).t) && Height(Settle(t, h).t) == H + Settle(t, h).h
    ensures Settle(t, h).h == 0 || Settle(t, h).h == -1
  {
    if t.bal == 2 {
      SettleRight(t, h);
    } else if t.bal == -2 {
      SettleLeft(t, h);
    }
  }

  /** SettleCorrect at balance +2: scenario 1 or 2 of avl.c:901-1013. */
  lemma SettleRight<D>(t: Tree<D>, h: int)
    requires NearAVL(t) && t.bal == 2
    ensures AVL(Settle(t, h).t) && Height(Settle(t, h).t) == Height(t) + Settle(t, h).h
    ensures Settle(t, h).h == 0 || Settle(t, h).h == -1
  {
    var b := t.right;
    assert Height(b) == Height(t.left) + 2;
    if b.bal >= 0 {
      assert Height(b.right) == Height(t.left) + 1;
    } else {
      var c := b.left;
      assert Height(c) == Height(t.left) + 1;
      assert Height(b.right) == Height(t.left);
      assert c.Node? && AVL(c);
      assert Height(c.left) == Height(t.left) - (if c.bal == 1 then 1 else 0);
      assert Height(c.right) == Height(t.left) - (if c.bal == -1 then 1 else 0);
    }
  }

  /** SettleCorrect at balance -2: the mirror scenarios of avl.c:1020-1132. */
  lemma SettleLeft<D>(t: Tree<D>, h: int)
    requires NearAVL(t) && t.bal == -2
    ensures AVL(Settle(t, h).t) && Height(Settle(t, h).t) == Height(t) + Settle(t, h).h
    ensures Settle(t, h).h == 0 || Settle(t, h).h == -1
  {
    var b := t.left;
    assert Height(b) == Height(t.right) + 2;
    if b.bal <= 0 {
      assert Height(b.left) == Height(t.right) + 1;
    } else {
      var c := b.right;
      assert Height(c) == Height(t.right) + 1;
      assert Height(b.left) == Height(t.right);
      assert c.Node? && AVL(c);
      assert Height(c.right) == Height(t.right) - (if c.bal == -1 then 1 else 0);
      assert Height(c.left) == Height(t.right) - (if c.bal == 1 then 1 else 0);
    }
  }

  /**
   * The nodes the rotation cases dereference exist: with balance +2 the
   * right child b exists, and so does b's right child in scenario 1
   * (avl.c:911-913) and b's left child in scenario 2; mirrored for -2
   * (avl.c:1030-1032).
   */
  lemma SettleShapes<D>(t: Tree<D>)
    requires NearAVL(t)
    ensures t.bal == 2 ==> t.right.Node? && (if t.right.bal >= 0 then t.right.right.Node? else t.right.left.Node?)
    ensures t.bal == -2 ==> t.left.Node? && (if t.left.bal <= 0 then t.left.left.Node? else t.left.right.Node?)
  {
  }

  /** One step up: the parent is again a node the loop can settle. */
  lemma ClimbCorrect<D>(f: Frame<D>, t: Tree<D>, u: Tree<D>, h: int)
    requires AVL(PlugOne(f, u)) && AVL(t) && Height(t) == Height(u) + h && (h == 0 || h == -1)
    ensures NearAVL(Climb(f, t, h).t) && Pending(Climb(f, t, h).t, Height(PlugOne(f, u)), Climb(f, t, h).h)
  {
  }

  /**
   * The upward loop ends in an AVL tree whose height is the old one plus
   * the final h, which is 0 or -1.
   */
  lemma {:induction false} FixupCorrect<D>(z: seq<Frame<D>>, t: Tree<D>, u: Tree<D>, h: int)
    requires AVL(Plug(z, u)) && NearAVL(t) && Pending(t, Height(u), h)
    ensures AVL(Fixup(z, t, h).t)
    ensures Height(Fixup(z, t, h).t) == Height(Plug(z, u)) + Fixup(z, t, h).h
    ensures Fixup(z, t, h).h == 0 || Fixup(z, t, h).h == -1
    decreases |z|
  {
    SettleCorrect(t, Height(u), h);
    if |z| > 0 {
      var s := Settle(t, h);
      var f := z[|z| - 1];
      AvlSub(z[..|z| - 1], PlugOne(f, u));
      ClimbCorrect(f, s.t, u, s.h);
      var up := Climb(f, s.t, s.h);
      FixupCorrect(z[..|z| - 1], up.t, PlugOne(f, u), up.h);
    }
  }

  /** Once h is 0 above an AVL subtree, the rest of the loop changes nothing. */
  lemma {:induction false} FixupStops<D>(z: seq<Frame<D>>, t: Tree<D>)
    requires AVL(Plug(z, t)) && t.Node?
    ensures Fixup(z, t, 0) == Carry(Plug(z, t), 0)
    decreases |z|
  {
    AvlSub(z, t);
    if |z| > 0 {
      var f := z[|z| - 1];
      FixupStops(z[..|z| - 1], PlugOne(f, t));
    }
  }

  // ------------------------------------------------------------------
  // Correctness of the splice and of the whole deletion
  // ------------------------------------------------------------------

  /** A path every frame of which goes left has nothing to the left of its hole. */
  lemma {:induction false} AllLeft<D>(z: seq<Frame<D>>)
    requires forall j :: 0 <= j < |z| ==> z[j].goLeft
    ensures PathLeft(z) == []
    decreases |z|
  {
    if |z| > 0 {
      AllLeft(z[..|z| - 1]);
    }
  }

  /** A path every frame of which goes right has nothing to the right of its hole. */
  lemma {:induction false} AllRight<D>(z: seq<Frame<D>>)
    requires forall j :: 0 <= j < |z| ==> !z[j].goLeft
    ensures PathRight(z) == []
    decreases |z|
  {
    if |z| > 0 {
      AllRight(z[..|z| - 1]);
    }
  }

  /** The left spine leads to the left-most node, and nothing lies to its left. */
  lemma {:induction false} MinSplit<D>(t: Tree<D>)
    requires t.Node?
    ensures Plug(MinPath(t), MinSub(t)) == t
    ensures forall j :: 0 <= j < |MinPath(t)| ==> MinPath(t)[j].goLeft
    ensures PathLeft(MinPath(t)) == []
  {
    if t.left.Node? {
      MinSplit(t.left);
      PlugCons(Step(t, true), MinPath(t.left), MinSub(t.left));
    }
    AllLeft(MinPath(t));
  }

  /** The right spine leads to the right-most node, and nothing lies to its right. */
  lemma {:induction false} MaxSplit<D>(t: Tree<D>)
    requires t.Node?
    ensures Plug(MaxPath(t), MaxSub(t)) == t
    ensures forall j :: 0 <= j < |MaxPath(t)| ==> !MaxPath(t)[j].goLeft
    ensures PathRight(MaxPath(t)) == []
  {
    if t.right.Node? {
      MaxSplit(t.right);
      PlugCons(Step(t, false), MaxPath(t.right), MaxSub(t.right));
    }
    AllRight(MaxPath(t));
  }

  /** The subtree that the splice removes from below its path: the node itself, or its neighbour. */
  function Removed<D>(z: seq<Frame<D>>, t: Tree<D>): (x: Tree<D>)
    requires t.Node?
    ensures x.Node? && (x.left.Leaf? || x.right.Leaf?)
  {
    if t.left.Leaf? || t.right.Leaf? then t
    else if t.bal > 0 then MinSub(t.right)
    else MaxSub(t.left)
  }

  /** Only index and payload differ between the two frames. */
  lemma Relabel<D>(z: seq<Frame<D>>, f: Frame<D>, g: Frame<D>, y: Tree<D>)
    requires f.goLeft == g.goLeft && f.bal == g.bal && f.sib == g.sib
    requires AVL(Plug(z, PlugOne(f, y)))
    ensures AVL(Plug(z, PlugOne(g, y))) && Height(Plug(z, PlugOne(g, y))) == Height(Plug(z, PlugOne(f, y)))
  {
    AvlSub(z, PlugOne(f, y));
    AvlReplace(z, PlugOne(f, y), PlugOne(g, y));
  }

  /** Three-way concatenation of paths, as the splice builds them. */
  lemma PlugThree<D>(z: seq<Frame<D>>, f: Frame<D>, w: seq<Frame<D>>, x: Tree<D>)
    ensures Plug(z + [f] + w, x) == Plug(z, PlugOne(f, Plug(w, x)))
  {
    PlugConcat(z + [f], w, x);
    PlugSnoc(z, f, Plug(w, x));
  }

  /** The frame t's position gets when neighbour m moves into it. */
  function MovedFrame<D>(t: Tree<D>, m: Tree<D>, goLeft: bool): (r: Frame<D>)
    requires t.Node? && m.Node?
  {
    Frame(goLeft, m.id, m.d, t.bal, if goLeft then t.right else t.left)
  }

  /**
   * Moving neighbour x, found below t along path mp on side goLeft, into
   * t's place does not change the shape of the tree.
   */
  lemma MoveShape<D>(z: seq<Frame<D>>, t: Tree<D>, goLeft: bool, mp: seq<Frame<D>>, x: Tree<D>)
    requires t.Node? && x.Node? && Plug(mp, x) == Child(t, goLeft) && AVL(Plug(z, t))
    ensures AVL(Plug(z + [MovedFrame(t, x, goLeft)] + mp, x))
    ensures Height(Plug(z + [MovedFrame(t, x, goLeft)] + mp, x)) == Height(Plug(z, t))
  {
    var f, g := Step(t, goLeft), MovedFrame(t, x, goLeft);
    PlugThree(z, g, mp, x);
    StepPlug(t, goLeft);
    Relabel(z, f, g, Plug(mp, x));
  }

  /**
   * Linking y in x's place and moving x into t's place: the in-order
   * sequence is the old one with t's payload taken out, when x is the
   * left-most node of t.right and y its right child.
   */
  lemma MoveInorderSuccessor<D>(z: seq<Frame<D>>, t: Tree<D>, mp: seq<Frame<D>>, x: Tree<D>)
    requires t.Node? && x.Node? && x.left == Leaf && Plug(mp, x) == t.right && PathLeft(mp) == []
    ensures Inorder(Plug(z + [MovedFrame(t, x, false)] + mp, x.right))
            == PathLeft(z) + Inorder(t.left) + Inorder(t.right) + PathRight(z)
  {
    var g := MovedFrame(t, x, false);
    var q := Plug(mp, x.right);
    PeelMin(mp, x);
    assert Inorder(PlugOne(g, q)) == Inorder(t.left) + Inorder(t.right) by {
      assert Inorder(PlugOne(g, q)) == Inorder(t.left) + [x.d] + Inorder(q);
    }
    PlugThree(z, g, mp, x.right);
    InorderSplit(z, PlugOne(g, q), Inorder(t.left), Inorder(t.right));
  }

  /** Replacing the left-most node x below a left-only path by its right child drops x.d from the front. */
  lemma PeelMin<D>(mp: seq<Frame<D>>, x: Tree<D>)
    requires x.Node? && x.left == Leaf && PathLeft(mp) == []
    ensures Inorder(Plug(mp, x)) == [x.d] + Inorder(Plug(mp, x.right))
  {
    InorderPlug(mp, x);
    InorderPlug(mp, x.right);
  }

  /** Mirror of PeelMin: the right-most node's payload leaves from the back. */
  lemma PeelMax<D>(mp: seq<Frame<D>>, x: Tree<D>)
    requires x.Node? && x.right == Leaf && PathRight(mp) == []
    ensures Inorder(Plug(mp, x)) == Inorder(Plug(mp, x.left)) + [x.d]
  {
    InorderPlug(mp, x);
    InorderPlug(mp, x.left);
  }

  /** The in-order sequence of a plugged tree whose own sequence is known in two halves. */
  lemma InorderSplit<D>(z: seq<Frame<D>>, u: Tree<D>, a: seq<D>, b: seq<D>)
    requires Inorder(u) == a + b
    ensures Inorder(Plug(z, u)) == PathLeft(z) + a + b + PathRight(z)
  {
    InorderPlug(z, u);
    Assoc(PathLeft(z), a, b, PathRight(z));
  }

  lemma Assoc<D>(a: seq<D>, b: seq<D>, c: seq<D>, d: seq<D>)
    ensures a + (b + c) + d == a + b + c + d
  {
  }

  lemma Halves<D>(a: seq<D>, b: seq<D>, c: seq<D>, d: seq<D>)
    ensures a + b + c + d == (a + b) + (c + d)
  {
  }

  lemma Regroup<D>(a: seq<D>, b: seq<D>, c: seq<D>, d: seq<D>, e: seq<D>)
    ensures a + (b + c + d) + e == (a + b) + c + (d + e) == a + b + c + d + e
  {
  }

  /** Mirror of MoveInorderSuccessor for the right-most node of t.left. */
  lemma MoveInorderPredecessor<D>(z: seq<Frame<D>>, t: Tree<D>, mp: seq<Frame<D>>, x: Tree<D>)
    requires t.Node? && x.Node? && x.right == Leaf && Plug(mp, x) == t.left && PathRight(mp) == []
    ensures Inorder(Plug(z + [MovedFrame(t, x, true)] + mp, x.left))
            == PathLeft(z) + Inorder(t.left) + Inorder(t.right) + PathRight(z)
  {
    var g := MovedFrame(t, x, true);
    var q := Plug(mp, x.left);
    PeelMax(mp, x);
    assert Inorder(PlugOne(g, q)) == Inorder(t.left) + Inorder(t.right) by {
      assert Inorder(PlugOne(g, q)) == Inorder(q) + [x.d] + Inorder(t.right);
    }
    PlugThree(z, g, mp, x.left);
    InorderSplit(z, PlugOne(g, q), Inorder(t.left), Inorder(t.right));
  }

  /** The indices after the move: every old one except t's own. */
  lemma MoveIds<D>(z: seq<Frame<D>>, t: Tree<D>, goLeft: bool, mp: seq<Frame<D>>, x: Tree<D>, y: Tree<D>)
    requires t.Node? && x.Node? && Plug(mp, x) == Child(t, goLeft)
    requires (x.left == Leaf && y == x.right) || (x.right == Leaf && y == x.left)
    ensures Ids(Plug(z + [MovedFrame(t, x, goLeft)] + mp, y)) == PathIds(z) + Ids(t.left) + Ids(t.right)
  {
    var g := MovedFrame(t, x, goLeft);
    PlugThree(z, g, mp, y);
    IdsPlug(mp, x);
    IdsPlug(mp, y);
    IdsPlug(z, PlugOne(g, Plug(mp, y)));
  }

  /** A node with at most one child is replaced by that child (avl.c:670-705). */
  lemma SpliceChild<D>(z: seq<Frame<D>>, t: Tree<D>)
    requires t.Node? && (t.left.Leaf? || t.right.Leaf?) && AVL(Plug(z, t))
    ensures var s := if t.left.Leaf? then t.right else t.left;
      AVL(s) && Height(s) + 1 == Height(t)
      && Inorder(Plug(z, s)) == PathLeft(z) + Inorder(t.left) + Inorder(t.right) + PathRight(z)
      && Ids(Plug(z, s)) == PathIds(z) + Ids(t.left) + Ids(t.right)
  {
    var s := if t.left.Leaf? then t.right else t.left;
    AvlSub(z, t);
    InorderPlug(z, s);
    IdsPlug(z, s);
    assert Inorder(s) == Inorder(t.left) + Inorder(t.right);
    Assoc(PathLeft(z), Inorder(t.left), Inorder(t.right), PathRight(z));
  }

  /**
   * The splice (avl.c:670-801): the removed subtree sat at the hole of the
   * new path in a tree of the same shape as the old one, its replacement
   * is one level lower, and the new path around the replacement holds the
   * old payloads and nodes minus those of t's own node.
   */
  lemma SpliceCorrect<D>(z: seq<Frame<D>>, t: Tree<D>)
    requires t.Node? && AVL(Plug(z, t))
    ensures var (w, s) := Splice(z, t); var x := Removed(z, t);
      AVL(Plug(w, x)) && Height(Plug(w, x)) == Height(Plug(z, t))
      && AVL(s) && Height(s) + 1 == Height(x)
    ensures var (w, s) := Splice(z, t);
      Inorder(Plug(w, s)) == PathLeft(z) + Inorder(t.left) + Inorder(t.right) + PathRight(z)
      && Ids(Plug(w, s)) == PathIds(z) + Ids(t.left) + Ids(t.right)
  {
    var (w, s) := Splice(z, t);
    var x := Removed(z, t);
    if t.left.Leaf? || t.right.Leaf? {
      SpliceChild(z, t);
    } else if t.bal > 0 {
      MinSplit(t.right);
      assert w == z + [MovedFrame(t, x, false)] + MinPath(t.right);
      MoveShape(z, t, false, MinPath(t.right), x);
      MoveInorderSuccessor(z, t, MinPath(t.right), x);
      MoveIds(z, t, false, MinPath(t.right), x, s);
      AvlSub(w, x);
    } else {
      MaxSplit(t.left);
      assert w == z + [MovedFrame(t, x, true)] + MaxPath(t.left);
      MoveShape(z, t, true, MaxPath(t.left), x);
      MoveInorderPredecessor(z, t, MaxPath(t.left), x);
      MoveIds(z, t, true, MaxPath(t.left), x, s);
      AvlSub(w, x);
    }
  }

  /** Shape half of AVL_delete: AVL again, and one level lower exactly when h ends at -1. */
  lemma KnuthDeleteShape<D>(z: seq<Frame<D>>, t: Tree<D>)
    requires t.Node? && AVL(Plug(z, t))
    ensures AVL(KnuthDelete(z, t).t)
    ensures Height(KnuthDelete(z, t).t) == Height(Plug(z, t)) + KnuthDelete(z, t).h
    ensures KnuthDelete(z, t).h == 0 || KnuthDelete(z, t).h == -1
  {
    var (w, s) := Splice(z, t);
    var x := Removed(z, t);
    SpliceCorrect(z, t);
    if |w| > 0 {
      var f := w[|w| - 1];
      assert Plug(w, x) == Plug(w[..|w| - 1], PlugOne(f, x));
      AvlSub(w[..|w| - 1], PlugOne(f, x));
      ClimbCorrect(f, s, x, -1);
      var start := Climb(f, s, -1);
      FixupCorrect(w[..|w| - 1], start.t, PlugOne(f, x), start.h);
    }
  }

  /** Contents half of AVL_delete: t's payload and index leave, nothing else does. */
  lemma KnuthDeleteContents<D>(z: seq<Frame<D>>, t: Tree<D>)
    requires t.Node? && AVL(Plug(z, t))
    ensures Inorder(KnuthDelete(z, t).t) == PathLeft(z) + Inorder(t.left) + Inorder(t.right) + PathRight(z)
    ensures Ids(KnuthDelete(z, t).t) == PathIds(z) + Ids(t.left) + Ids(t.right)
  {
    var (w, s) := Splice(z, t);
    SpliceCorrect(z, t);
    if |w| > 0 {
      var f := w[|w| - 1];
      var start := Climb(f, s, -1);
      assert Plug(w, s) == Plug(w[..|w| - 1], PlugOne(f, s));
      ReplaceContents(w[..|w| - 1], PlugOne(f, s), start.t);
    }
  }

  /**
   * AVL_delete once the key was found at node t below path z
   * (avl.c:670-1162): the result is an ordered AVL tree whose in-order
   * sequence is the old one without t's payload, whose nodes are the old
   * ones without t's, and whose height dropped by one exactly when the
   * final h is -1.
   */
  lemma KnuthDeleteCorrect<D(!new)>(eval: (D, D) -> int, z: seq<Frame<D>>, t: Tree<D>)
    requires t.Node? && AVL(Plug(z, t)) && Ordered(eval, Plug(z, t))
    ensures AVL(KnuthDelete(z, t).t)
    ensures Height(KnuthDelete(z, t).t) == Height(Plug(z, t)) + KnuthDelete(z, t).h
    ensures KnuthDelete(z, t).h == 0 || KnuthDelete(z, t).h == -1
    ensures Inorder(Plug(z, t)) == PathLeft(z) + Inorder(t.left) + [t.d] + Inorder(t.right) + PathRight(z)
    ensures Inorder(KnuthDelete(z, t).t) == PathLeft(z) + Inorder(t.left) + Inorder(t.right) + PathRight(z)
    ensures Ordered(eval, KnuthDelete(z, t).t)
    ensures Distinct(Plug(z, t)) ==>
      Distinct(KnuthDelete(z, t).t) && Ids(KnuthDelete(z, t).t) == Ids(Plug(z, t)) - {t.id}
  {
    var r := KnuthDelete(z, t).t;
    KnuthDeleteShape(z, t);
    KnuthDeleteContents(z, t);
    InorderPlug(z, t);
    var l, m := PathLeft(z) + Inorder(t.left), Inorder(t.right) + PathRight(z);
    Regroup(PathLeft(z), Inorder(t.left), [t.d], Inorder(t.right), PathRight(z));
    Halves(PathLeft(z), Inorder(t.left), Inorder(t.right), PathRight(z));
    SortedRemove(eval, l, t.d, m);
    if Distinct(Plug(z, t)) {
      KnuthDeleteDistinct(z, t);
    }
  }

  /** AVL_delete keeps every node in the tree at most once, and drops exactly t's. */
  lemma KnuthDeleteDistinct<D>(z: seq<Frame<D>>, t: Tree<D>)
    requires t.Node? && AVL(Plug(z, t)) && Distinct(Plug(z, t))
    ensures Distinct(KnuthDelete(z, t).t) && Ids(KnuthDelete(z, t).t) == Ids(Plug(z, t)) - {t.id}
  {
    var o, r := Plug(z, t), KnuthDelete(z, t).t;
    KnuthDeleteContents(z, t);
    IdsPlug(z, t);
    DistinctPlug(z, t);
    assert Ids(r) == Ids(o) - {t.id};
    DistinctCard(o);
    DistinctCard(r);
    InorderSize(o);
    InorderSize(r);
    InorderPlug(z, t);
    assert |Inorder(o)| == |Inorder(r)| + 1;
  }
}
