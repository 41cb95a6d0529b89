/**
 * AVL_insert (avl.c:362-588) as functions over the search path, following
 * Knuth, The Art of Computer Programming, Vol. 3, section 6.2.3, Algorithm A,
 * with the step names the source uses: the pivot `b` is the last node on the
 * path whose balance was non-zero (or the top), A6 sets the balances below
 * it, A7 decides at the pivot, A8 is the single and A9 the double rotation.
 */
module Insertion {
  import opened Order
  import opened Trees

  /** The side a path frame continues on, as the balance it adds: -1 left, +1 right. */
  function Dir<D>(f: Frame<D>): (r: int) { if f.goLeft then -1 else 1 }

  /**
   * Position of the pivot on the insertion path (avl.c:403-407, 431-435):
   * the deepest node whose balance is non-zero, or the top of the tree.
   */
  function Pivot<D>(z: seq<Frame<D>>): (bp: nat)
    requires |z| > 0
    ensures bp < |z|
    ensures bp == 0 || z[bp].bal != 0
    ensures forall j :: bp < j < |z| ==> z[j].bal == 0
    decreases |z|
  {
    if |z| == 1 || z[|z| - 1].bal != 0 then |z| - 1 else Pivot(z[..|z| - 1])
  }

  /** A6 (avl.c:479-495): every node below the pivot leans toward the new node. */
  function Lean<D>(z: seq<Frame<D>>): (z': seq<Frame<D>>)
    ensures |z'| == |z|
    ensures forall j :: 0 <= j < |z| ==> z'[j] == z[j].(bal := Dir(z[j]))
  {
    seq(|z|, j requires 0 <= j < |z| => z[j].(bal := Dir(z[j])))
  }

  /** The node AVL_newNode hands out, with the payload stored (avl.c:133-137, 417). */
  function NewLeaf<D>(n: nat, d: D): (r: Tree<D>) { Node(Leaf, n, d, 0, Leaf) }

  /**
   * A8 and A9 at the pivot t, whose subtree on side a has grown by one and
   * already carries its A6 balances; the resulting balances are the
   * closed-form table of avl.c:530-531 and 554-569.  Shapes the algorithm never meets
   * (a missing child) leave t as it is.
   */
  function RotateIns<D>(t: Tree<D>, a: int): (s: Tree<D>)
    ensures Inorder(s) == Inorder(t) && Ids(s) == Ids(t)
  {
    if !t.Node? then t
    else if a == -1 then
      match t.left
      case Leaf => t
      case Node(rl, ri, rd, rb, rr) =>
        if rb == a then
          // A8: b.l = r.r; r.r = b
          Rotation(rl, ri, rd, rb, rr, t.id, t.d, t.bal, t.right, 0, 0);
          Node(rl, ri, rd, 0, Node(rr, t.id, t.d, 0, t.right))
        else
          match rr
          case Leaf => t
          case Node(cl, ci, cd, cb, cr) =>
            // A9: r.r = c.l; c.l = r; b.l = c.r; c.r = b
            var bb := if cb == a then -a else 0;
            var rb' := if cb == -a then a else 0;
            Rotation(rl, ri, rd, rb', cl, ci, cd, cb, cr, rb, cb);
            Rotation(Node(rl, ri, rd, rb', cl), ci, cd, cb, cr, t.id, t.d, t.bal, t.right, 0, bb);
            Node(Node(rl, ri, rd, rb', cl), ci, cd, 0, Node(cr, t.id, t.d, bb, t.right))
    else
      match t.right
      case Leaf => t
      case Node(rl, ri, rd, rb, rr) =>
        if rb == a then
          // A8: b.r = r.l; r.l = b
          Rotation(t.left, t.id, t.d, 0, rl, ri, rd, 0, rr, t.bal, rb);
          Node(Node(t.left, t.id, t.d, 0, rl), ri, rd, 0, rr)
        else
          match rl
          case Leaf => t
          case Node(cl, ci, cd, cb, cr) =>
            // A9: r.l = c.r; c.r = r; b.r = c.l; c.l = b
            var bb := if cb == a then -a else 0;
            var rb' := if cb == -a then a else 0;
            Rotation(cl, ci, cd, cb, cr, ri, rd, rb, rr, cb, rb');
            Rotation(t.left, t.id, t.d, bb, cl, ci, cd, 0, Node(cr, ri, rd, rb', rr), t.bal, cb);
            Node(Node(t.left, t.id, t.d, bb, cl), ci, cd, 0, Node(cr, ri, rd, rb', rr))
  }

  /** A7 (avl.c:498-584) at the pivot t, whose subtree on side a has grown. */
  function Rebalance<D>(t: Tree<D>, a: int): (s: Tree<D>)
    requires t.Node?
    ensures Inorder(s) == Inorder(t) && Ids(s) == Ids(t)
  {
    if t.bal == 0 then t.(bal := a)         // A7.i
    else if t.bal == -a then t.(bal := 0)   // A7.ii
    else RotateIns(t, a)                    // A7.iii
  }

  /**
   * The tree AVL_insert builds when the search for d ended at the empty
   * child below the last frame of z and node n was linked there.
   */
  function KnuthInsert<D>(z: seq<Frame<D>>, n: nat, d: D): (r: Tree<D>)
    requires |z| > 0
  {
    var bp := Pivot(z);
    var s := Plug(Lean(z[bp + 1..]), NewLeaf(n, d));
    Plug(z[..bp], Rebalance(PlugOne(z[bp], s), Dir(z[bp])))
  }

  /** Whether A7.i applies, the only case in which t.height grows (avl.c:498-504). */
  function Grows<D>(z: seq<Frame<D>>): (r: bool)
    requires |z| > 0
  {
    z[Pivot(z)].bal == 0
  }

  // ------------------------------------------------------------------
  // Correctness
  // ------------------------------------------------------------------

  lemma LeanPrefix<D>(z: seq<Frame<D>>)
    requires |z| > 0
    ensures Lean(z)[..|z| - 1] == Lean(z[..|z| - 1])
    ensures Lean(z)[|z| - 1] == z[|z| - 1].(bal := Dir(z[|z| - 1]))
  {
  }

  /** A6 changes balances only: the path's payloads and indices stay. */
  lemma {:induction false} LeanKeeps<D>(z: seq<Frame<D>>)
    ensures PathLeft(Lean(z)) == PathLeft(z) && PathRight(Lean(z)) == PathRight(z)
    ensures PathIds(Lean(z)) == PathIds(z)
    decreases |z|
  {
    if |z| > 0 {
      LeanPrefix(z);
      LeanKeeps(z[..|z| - 1]);
    }
  }

  lemma LeanInorderIds<D>(z: seq<Frame<D>>, t: Tree<D>)
    ensures Inorder(Plug(Lean(z), t)) == Inorder(Plug(z, t))
    ensures Ids(Plug(Lean(z), t)) == Ids(Plug(z, t))
  {
    LeanKeeps(z);
    InorderPlug(z, t);
    InorderPlug(Lean(z), t);
    IdsPlug(z, t);
    IdsPlug(Lean(z), t);
  }

  /**
   * Below the pivot every node was balanced; after A6 the subtree there is
   * AVL again and exactly one level taller, and its top leans toward the
   * new node.
   */
  lemma {:induction false} LeanGrows<D>(z: seq<Frame<D>>, t0: Tree<D>, t1: Tree<D>)
    requires forall j :: 0 <= j < |z| ==> z[j].bal == 0
    requires AVL(Plug(z, t0)) && AVL(t1) && Height(t1) == Height(t0) + 1
    ensures AVL(Plug(Lean(z), t1))
    ensures Height(Plug(Lean(z), t1)) == Height(Plug(z, t0)) + 1
    decreases |z|
  {
    if |z| > 0 {
      var z' := z[..|z| - 1];
      var f := z[|z| - 1];
      LeanPrefix(z);
      var lf := Lean(z)[|z| - 1];
      AvlSub(z', PlugOne(f, t0));
      LeanGrows(z', PlugOne(f, t0), PlugOne(lf, t1));
    }
  }

  lemma LeanTop<D>(z: seq<Frame<D>>, t: Tree<D>)
    requires |z| > 0
    ensures Plug(Lean(z), t).Node? && Plug(Lean(z), t).bal == Dir(z[0])
  {
    PlugSplit(Lean(z), 0, t);
    assert Lean(z)[..0] == [];
  }

  /** A8/A9 restore the AVL invariant at the pivot and its old height (avl.c:514-570). */
  lemma RotateInsCorrect<D>(f: Frame<D>, t0: Tree<D>, s: Tree<D>)
    requires f.bal == Dir(f) && AVL(PlugOne(f, t0))
    requires AVL(s) && Height(s) == Height(t0) + 1 && s.Node? && s.bal != 0
    ensures AVL(RotateIns(PlugOne(f, s), Dir(f)))
    ensures Height(RotateIns(PlugOne(f, s), Dir(f))) == Height(PlugOne(f, t0))
  {
    if f.goLeft {
      RotateLeftCorrect(f, t0, s);
    } else {
      RotateRightCorrect(f, t0, s);
    }
  }

  /** RotateInsCorrect when the left subtree has grown: A8 or A9 to the right. */
  lemma RotateLeftCorrect<D>(f: Frame<D>, t0: Tree<D>, s: Tree<D>)
    requires f.goLeft && f.bal == -1 && AVL(PlugOne(f, t0))
    requires AVL(s) && Height(s) == Height(t0) + 1 && s.Node? && s.bal != 0
    ensures AVL(RotateIns(PlugOne(f, s), -1))
    ensures Height(RotateIns(PlugOne(f, s), -1)) == Height(PlugOne(f, t0))
  {
    if s.bal == 1 {
      var c := s.right;
      assert c.Node? && AVL(c) && AVL(s.left);
    }
  }

  /** RotateInsCorrect when the right subtree has grown: A8 or A9 to the left. */
  lemma RotateRightCorrect<D>(f: Frame<D>, t0: Tree<D>, s: Tree<D>)
    requires !f.goLeft && f.bal == 1 && AVL(PlugOne(f, t0))
    requires AVL(s) && Height(s) == Height(t0) + 1 && s.Node? && s.bal != 0
    ensures AVL(RotateIns(PlugOne(f, s), 1))
    ensures Height(RotateIns(PlugOne(f, s), 1)) == Height(PlugOne(f, t0))
  {
    if s.bal == -1 {
      var c := s.left;
      assert c.Node? && AVL(c) && AVL(s.right);
    }
  }

  /** A7 at the pivot: AVL again, one level taller exactly when the pivot was balanced. */
  lemma RebalanceCorrect<D>(f: Frame<D>, t0: Tree<D>, s: Tree<D>)
    requires AVL(PlugOne(f, t0)) && AVL(s) && Height(s) == Height(t0) + 1 && s.Node?
    requires s.bal != 0 || Height(t0) == 0
    ensures AVL(Rebalance(PlugOne(f, s), Dir(f)))
    ensures Height(Rebalance(PlugOne(f, s), Dir(f)))
            == Height(PlugOne(f, t0)) + (if f.bal == 0 then 1 else 0)
  {
    if f.bal != 0 && f.bal != -Dir(f) {
      assert f.bal == Dir(f);
      RotateInsCorrect(f, t0, s);
    }
  }

  /** Only the top can be a balanced pivot, so A7.i means the whole tree grew. */
  lemma GrowsAtTop<D>(z: seq<Frame<D>>)
    requires |z| > 0 && Grows(z)
    ensures Pivot(z) == 0 && forall j :: 0 <= j < |z| ==> z[j].bal == 0
  {
  }

  lemma SortedInsert<D(!new)>(eval: (D, D) -> int, l: seq<D>, d: D, r: seq<D>)
    requires Sorted(eval, l + r)
    requires forall x :: x in l ==> Before(eval, x, d)
    requires forall y :: y in r ==> Before(eval, d, y)
    ensures Sorted(eval, l + [d] + r)
  {
    var s := l + [d] + r;
    forall i, j | 0 <= i < j < |s| ensures Before(eval, s[i], s[j]) {
      if i < |l| && j == |l| {
        assert s[i] in l;
      } else if i == |l| {
        assert s[j] == r[j - |l| - 1] && s[j] in r;
      } else {
        var i' := if i < |l| then i else i - 1;
        var j' := if j < |l| then j else j - 1;
        assert s[i] == (l + r)[i'] && s[j] == (l + r)[j'];
      }
    }
  }

  /**
   * The subtree below the pivot after A6: AVL, one level taller than before,
   * and leaning toward the new node unless it is that node.
   */
  lemma BelowPivot<D>(w: seq<Frame<D>>, n: nat, d: D)
    requires forall j :: 0 <= j < |w| ==> w[j].bal == 0
    requires AVL(Plug(w, Leaf))
    ensures var s := Plug(Lean(w), NewLeaf(n, d));
      AVL(s) && Height(s) == Height(Plug(w, Leaf)) + 1 && s.Node?
      && (s.bal != 0 || Height(Plug(w, Leaf)) == 0)
  {
    LeanGrows(w, Leaf, NewLeaf(n, d));
    if |w| > 0 {
      LeanTop(w, NewLeaf(n, d));
    }
  }

  /** Shape half of AVL_insert: still AVL, one taller exactly in case A7.i. */
  lemma KnuthInsertShape<D>(z: seq<Frame<D>>, n: nat, d: D)
    requires |z| > 0 && AVL(Plug(z, Leaf))
    ensures AVL(KnuthInsert(z, n, d))
    ensures Height(KnuthInsert(z, n, d)) == Height(Plug(z, Leaf)) + (if Grows(z) then 1 else 0)
  {
    var bp := Pivot(z);
    var u, f, w := z[..bp], z[bp], z[bp + 1..];
    var s := Plug(Lean(w), NewLeaf(n, d));
    var t0 := Plug(w, Leaf);
    var top := Rebalance(PlugOne(f, s), Dir(f));
    assert Plug(z, Leaf) == Plug(u, PlugOne(f, t0)) by {
      PlugSplit(z, bp, Leaf);
    }
    assert AVL(top) && Height(top) == Height(PlugOne(f, t0)) + (if f.bal == 0 then 1 else 0) by {
      AvlSub(u, PlugOne(f, t0));
      BelowPivot(w, n, d);
      RebalanceCorrect(f, t0, s);
    }
    assert KnuthInsert(z, n, d) == Plug(u, top);
    if Grows(z) {
      GrowsAtTop(z);
      assert u == [];
    } else {
      AvlReplace(u, PlugOne(f, t0), top);
    }
  }

  /** What the tree holds once a node is linked at the hole. */
  lemma HoleContents<D>(z: seq<Frame<D>>, n: nat, d: D)
    ensures Inorder(Plug(z, Leaf)) == PathLeft(z) + PathRight(z)
    ensures Inorder(Plug(z, NewLeaf(n, d))) == PathLeft(z) + [d] + PathRight(z)
    ensures Ids(Plug(z, NewLeaf(n, d))) == Ids(Plug(z, Leaf)) + {n}
  {
    InorderPlug(z, NewLeaf(n, d));
    InorderPlug(z, Leaf);
    IdsPlug(z, NewLeaf(n, d));
    IdsPlug(z, Leaf);
    assert PathLeft(z) + [] + PathRight(z) == PathLeft(z) + PathRight(z);
  }

  /** Contents half of AVL_insert: d lands in the hole, n joins the nodes. */
  lemma KnuthInsertContents<D>(z: seq<Frame<D>>, n: nat, d: D)
    requires |z| > 0
    ensures Inorder(Plug(z, Leaf)) == PathLeft(z) + PathRight(z)
    ensures Inorder(KnuthInsert(z, n, d)) == PathLeft(z) + [d] + PathRight(z)
    ensures Ids(KnuthInsert(z, n, d)) == Ids(Plug(z, Leaf)) + {n}
  {
    var bp := Pivot(z);
    var u, f, w := z[..bp], z[bp], z[bp + 1..];
    var leaf := NewLeaf(n, d);
    var top := Rebalance(PlugOne(f, Plug(Lean(w), leaf)), Dir(f));
    var mid := PlugOne(f, Plug(w, leaf));
    assert KnuthInsert(z, n, d) == Plug(u, top);
    LeanInorderIds(w, leaf);
    assert Inorder(top) == Inorder(mid) && Ids(top) == Ids(mid);
    ReplaceContents(u, mid, top);
    PlugSplit(z, bp, leaf);
    HoleContents(z, n, d);
  }

  /**
   * AVL_insert when no stored payload compares equal to d (avl.c:388-585):
   * the result is an ordered AVL tree whose in-order sequence is the old one
   * with d inserted, whose nodes are the old ones plus n, and whose height
   * grew by one exactly in case A7.i.
   */
  lemma KnuthInsertCorrect<D(!new)>(eval: (D, D) -> int, z: seq<Frame<D>>, n: nat, d: D)
    requires IsComparator(eval)
    requires |z| > 0 && SearchPath(eval, z, d)
    requires AVL(Plug(z, Leaf)) && Ordered(eval, Plug(z, Leaf))
    ensures AVL(KnuthInsert(z, n, d))
    ensures Height(KnuthInsert(z, n, d)) == Height(Plug(z, Leaf)) + (if Grows(z) then 1 else 0)
    ensures Inorder(KnuthInsert(z, n, d)) == PathLeft(z) + [d] + PathRight(z)
    ensures Ordered(eval, KnuthInsert(z, n, d))
    ensures Ids(KnuthInsert(z, n, d)) == Ids(Plug(z, Leaf)) + {n}
    ensures Distinct(Plug(z, Leaf)) && n !in Ids(Plug(z, Leaf)) ==> Distinct(KnuthInsert(z, n, d))
  {
    var before := Plug(z, Leaf);
    var r := KnuthInsert(z, n, d);
    KnuthInsertShape(z, n, d);
    KnuthInsertContents(z, n, d);
    SearchPathSplit(eval, z, Leaf, d);
    SortedInsert(eval, PathLeft(z), d, PathRight(z));
    DistinctCard(before);
    DistinctCard(r);
    InorderSize(before);
    InorderSize(r);
  }
}
