/**
 * AVL_insert (avl.c:362-588) on the node arena: the search that records the
 * pivot, the linking of the new node, A6 and A7-A10, each proved to build in
 * the arena the tree that module Insertion describes.
 */
module Linking {
  import opened Flags
  import opened Order
  import opened Trees
  import opened Arena
  import opened Insertion

  /** The pivot is the one position that is non-zero (or the top) with only balanced nodes below it. */
  lemma PivotUnique<D>(z: seq<Frame<D>>, x: nat)
    requires x < |z| && (x == 0 || z[x].bal != 0)
    requires forall j :: x < j < |z| ==> z[j].bal == 0
    ensures Pivot(z) == x
  {
  }

  /**
   * The state of the search loop of AVL_insert: s is the subtree at the
   * current node c, reached along z; b is the pivot so far, z[bp] or c
   * itself, and p the node above b.
   */
  ghost predicate SearchAt<D>(eval: (D, D) -> int, nodes: seq<AvlNode<D>>, t: Tree<D>, d: D, c: int, b: int, p: int,
                              z: seq<Frame<D>>, s: Tree<D>, bp: nat)
  {
    Plug(z, s) == t && SearchPath(eval, z, d) && Linked(nodes, s) && Ordered(eval, s)
    && s.Node? && c == s.id
    && (Absent(eval, Inorder(t), d) <==> Absent(eval, Inorder(s), d))
    && bp <= |z| && b == (if bp == |z| then c else z[bp].id) && p == (if bp == 0 then NULL else z[bp - 1].id)
    && (bp < |z| ==> s.bal == 0 && (bp == 0 || z[bp].bal != 0))
    && (bp == |z| && bp > 0 ==> s.bal != 0)
    && (forall j :: bp < j < |z| ==> z[j].bal == 0)
  }

  /** Where the search ends: the hole below the last frame of z, with b and p the pivot and its parent. */
  ghost predicate HoleAt<D>(eval: (D, D) -> int, t: Tree<D>, d: D, c: int, goLeft: bool, b: int, p: int,
                            z: seq<Frame<D>>)
  {
    |z| > 0 && Plug(z, Leaf) == t && SearchPath(eval, z, d)
    && c == z[|z| - 1].id && goLeft == z[|z| - 1].goLeft
    && b == z[Pivot(z)].id && p == (if Pivot(z) == 0 then NULL else z[Pivot(z) - 1].id)
  }

  /** One descent of the search: the next state, or the hole when the child is empty. */
  lemma SearchNext<D(!new)>(eval: (D, D) -> int, nodes: seq<AvlNode<D>>, t: Tree<D>, d: D, c: int, b: int, p: int,
                            z: seq<Frame<D>>, s: Tree<D>, bp: nat, goLeft: bool)
    requires IsComparator(eval) && SearchAt(eval, nodes, t, d, c, b, p, z, s, bp)
    requires eval(s.d, d) != 0 && goLeft == (eval(s.d, d) < 0)
    ensures c < |nodes| && var next := (if goLeft then nodes[c].l else nodes[c].r);
      var z' := z + [Step(s, goLeft)];
      var s' := Child(s, goLeft);
      (next == NULL ==> HoleAt(eval, t, d, c, goLeft, b, p, z') && Absent(eval, Inorder(t), d))
      && (next != NULL ==> (0 <= next < |nodes| && GetBal(nodes[next].f) == s'.bal && Size(s') < Size(s)
          && if s'.bal != 0 then SearchAt(eval, nodes, t, d, next, next, c, z', s', |z'|)
             else SearchAt(eval, nodes, t, d, next, b, p, z', s', bp)))
  {
    var z', s' := z + [Step(s, goLeft)], Child(s, goLeft);
    SearchStep(eval, s, d);
    StepPlug(s, goLeft);
    PlugSnoc(z, Step(s, goLeft), s');
    assert z'[|z|] == Step(s, goLeft);
    assert (if goLeft then nodes[c].l else nodes[c].r) == Root(s');
    if s'.Leaf? {
      PivotUnique(z', bp);
    } else {
      assert Linked(nodes, s') && Holds(nodes[s'.id], Root(s'.left), s'.d, s'.bal, Root(s'.right));
    }
  }

  /**
   * The search of AVL_insert (avl.c:388-453) in a non-empty tree: descend
   * as AVL_find does, keeping in b the last node on the way whose balance
   * is non-zero (the top to begin with) and in p the node above it.  The
   * loop ends at a payload that compares the same as d, or at the empty
   * child where d belongs, which is the hole of the path z below node c on
   * side goLeft.
   */
  method SearchHole<D(!new)>(eval: (D, D) -> int, nodes: seq<AvlNode<D>>, top: int, d: D, ghost t: Tree<D>)
    returns (found: bool, c: int, goLeft: bool, b: int, p: int, ghost z: seq<Frame<D>>)
    requires IsComparator(eval) && Linked(nodes, t) && Ordered(eval, t) && t.Node? && top == Root(t)
    ensures found <==> !Absent(eval, Inorder(t), d)
    ensures !found ==> HoleAt(eval, t, d, c, goLeft, b, p, z)
  {
    c, b, p := top, top, NULL;
    found, goLeft := false, false;
    var hole := false;
    ghost var s := t;
    ghost var bp: nat := 0;
    z := [];
    while !found && !hole
      invariant !found && !hole ==> SearchAt(eval, nodes, t, d, c, b, p, z, s, bp)
      invariant hole ==> !found && HoleAt(eval, t, d, c, goLeft, b, p, z) && Absent(eval, Inorder(t), d)
      invariant found ==> !Absent(eval, Inorder(t), d)
      decreases if found || hole then 0 else Size(s) + 1
    {
      var e := eval(nodes[c].d.value, d);
      if e == 0 {
        found := true;
        assert Inorder(s)[|Inorder(s.left)|] == s.d;
      } else {
        goLeft := e < 0;
        SearchNext(eval, nodes, t, d, c, b, p, z, s, bp, goLeft);
        var next := if goLeft then nodes[c].l else nodes[c].r;
        if next != NULL {
          if GetBal(nodes[next].f) != 0 {
            b, p := next, c;
            bp := |z| + 1;
          }
          z, s := z + [Step(s, goLeft)], Child(s, goLeft);
          c := next;
        } else {
          z := z + [Step(s, goLeft)];
          hole := true;
        }
      }
    }
  }

  /**
   * Storing the payload in n and linking n below c (avl.c:417-418, 445-446): the
   * new leaf hangs in the hole of z.
   */
  lemma LinkLeaf<D>(nodes: seq<AvlNode<D>>, nodes1: seq<AvlNode<D>>, nodes2: seq<AvlNode<D>>, z: seq<Frame<D>>,
                    n: nat, d: D)
    requires |z| > 0 && Linked(nodes, Plug(z, Leaf)) && Distinct(Plug(z, Leaf))
    requires n < |nodes| && n !in Ids(Plug(z, Leaf))
    requires nodes[n].l == NULL && nodes[n].r == NULL && GetBal(nodes[n].f) == 0
    requires nodes1 == nodes[n := nodes[n].(d := Some(d))]
    requires z[|z| - 1].id < |nodes|
    requires nodes2 == nodes1[z[|z| - 1].id := WithChild(nodes1[z[|z| - 1].id], z[|z| - 1].goLeft, n)]
    ensures Linked(nodes2, Plug(z, NewLeaf(n, d))) && Distinct(Plug(z, NewLeaf(n, d)))
    ensures Ids(Plug(z, NewLeaf(n, d))) == Ids(Plug(z, Leaf)) + {n}
    ensures Reshaped(nodes, nodes2, Ids(Plug(z, Leaf)) + {n})
  {
    var leaf := NewLeaf(n, d);
    LinkedPlug(nodes, z, Leaf);
    DistinctPlug(z, Leaf);
    IdsPlug(z, Leaf);
    LinkedPathFrame(nodes, nodes1, z, NULL);
    Retarget(nodes1, z, NULL, n);
    PathIdsHas(z, |z| - 1);
    assert Linked(nodes2, leaf);
    LinkedPlug(nodes2, z, leaf);
    DistinctPlug(z, leaf);
    IdsPlug(z, leaf);
  }

  /**
   * The state of the A6 loop: the balances of the first i frames of w below
   * the pivot have been set, and c is the node of frame i (n past the end).
   */
  ghost predicate LeanAt<D>(nodes0: seq<AvlNode<D>>, nodes: seq<AvlNode<D>>, c: int, n: nat, d: D,
                            u: seq<Frame<D>>, w: seq<Frame<D>>, i: nat, ids: set<nat>)
  {
    i <= |w| && var t := Plug(u + Lean(w[..i]), Plug(w[i..], NewLeaf(n, d)));
    Linked(nodes, t) && Distinct(t) && Ids(t) == ids
    && c == Root(Plug(w[i..], NewLeaf(n, d))) && Reshaped(nodes0, nodes, ids)
  }

  /** What the loop reads at frame i: the node's payload, and that it is not yet n. */
  lemma LeanLook<D>(nodes0: seq<AvlNode<D>>, nodes: seq<AvlNode<D>>, c: int, n: nat, d: D,
                    u: seq<Frame<D>>, w: seq<Frame<D>>, i: nat, ids: set<nat>)
    requires LeanAt(nodes0, nodes, c, n, d, u, w, i, ids)
    ensures c == n <==> i == |w|
    ensures i < |w| ==> 0 <= c < |nodes| && nodes[c].d == Some(w[i].d)
  {
    var leaf := NewLeaf(n, d);
    var pre := u + Lean(w[..i]);
    if i < |w| {
      assert w[i..] == [w[i]] + w[i + 1..];
      PlugCons(w[i], w[i + 1..], leaf);
      var sub := PlugOne(w[i], Plug(w[i + 1..], leaf));
      LinkedAt(nodes, pre, sub);
      DistinctPlug(pre, sub);
      IdsPlug(w[i + 1..], leaf);
      assert n in Ids(Plug(w[i + 1..], leaf));
    } else {
      assert w[i..] == [];
    }
  }

  /** Setting the balance of the current node to -1 or +1 and the step down: the loop's state at frame i + 1. */
  lemma LeanNext<D>(nodes0: seq<AvlNode<D>>, nodes: seq<AvlNode<D>>, c: int, n: nat, d: D,
                    u: seq<Frame<D>>, w: seq<Frame<D>>, i: nat, ids: set<nat>)
    requires LeanAt(nodes0, nodes, c, n, d, u, w, i, ids) && i < |w|
    ensures 0 <= c < |nodes|
    ensures var v := nodes[c].(f := SetBal(nodes[c].f, Dir(w[i])));
      LeanAt(nodes0, nodes[c := v], if w[i].goLeft then v.l else v.r, n, d, u, w, i + 1, ids)
  {
    var leaf := NewLeaf(n, d);
    var pre := u + Lean(w[..i]);
    var below := Plug(w[i + 1..], leaf);
    var sub := PlugOne(w[i], below);
    var lf := w[i].(bal := Dir(w[i]));
    assert Plug(w[i..], leaf) == sub by {
      assert w[i..] == [w[i]] + w[i + 1..];
      PlugCons(w[i], w[i + 1..], leaf);
    }
    assert c < |nodes| && Holds(nodes[c], Root(sub.left), sub.d, sub.bal, Root(sub.right)) by {
      LinkedAt(nodes, pre, sub);
    }
    var v := nodes[c].(f := SetBal(nodes[c].f, Dir(w[i])));
    WriteNode(nodes, pre, sub, v, Dir(w[i]));
    assert Plug(pre, sub.(bal := Dir(w[i]))) == Plug(u + Lean(w[..i + 1]), below) by {
      assert sub.(bal := Dir(w[i])) == PlugOne(lf, below);
      PlugSnoc(pre, lf, below);
      assert Lean(w[..i + 1]) == Lean(w[..i]) + [lf];
      assert pre + [lf] == u + Lean(w[..i + 1]);
    }
    ReshapedStep(nodes0, nodes, ids, c, v);
  }

  /**
   * A6 (avl.c:475-495): from r, the pivot's child toward d, down to the new
   * node n, every node on the way gets the balance of the side the search
   * took.  The frames below the pivot are w, the path above them u.
   */
  method LeanPath<D>(eval: (D, D) -> int, nodes: seq<AvlNode<D>>, r: int, n: nat, d: D,
                     ghost u: seq<Frame<D>>, ghost w: seq<Frame<D>>)
    returns (nodes': seq<AvlNode<D>>)
    requires SearchPath(eval, w, d)
    requires Linked(nodes, Plug(u, Plug(w, NewLeaf(n, d)))) && Distinct(Plug(u, Plug(w, NewLeaf(n, d))))
    requires r == Root(Plug(w, NewLeaf(n, d)))
    ensures Linked(nodes', Plug(u, Plug(Lean(w), NewLeaf(n, d))))
    ensures Distinct(Plug(u, Plug(Lean(w), NewLeaf(n, d))))
    ensures Ids(Plug(u, Plug(Lean(w), NewLeaf(n, d)))) == Ids(Plug(u, Plug(w, NewLeaf(n, d))))
    ensures Reshaped(nodes, nodes', Ids(Plug(u, Plug(w, NewLeaf(n, d)))))
  {
    ghost var ids := Ids(Plug(u, Plug(w, NewLeaf(n, d))));
    nodes' := nodes;
    var c := r;
    ghost var i := 0;
    assert u + Lean(w[..0]) == u && w[0..] == w;
    while c != n
      invariant LeanAt(nodes, nodes', c, n, d, u, w, i, ids)
      decreases |w| - i
    {
      LeanLook(nodes, nodes', c, n, d, u, w, i, ids);
      LeanNext(nodes, nodes', c, n, d, u, w, i, ids);
      var e := eval(nodes'[c].d.value, d);
      if e < 0 {
        nodes' := nodes'[c := nodes'[c].(f := SetBal(nodes'[c].f, -1))];
        c := nodes'[c].l;
      } else {
        nodes' := nodes'[c := nodes'[c].(f := SetBal(nodes'[c].f, 1))];
        c := nodes'[c].r;
      }
      i := i + 1;
    }
    LeanLook(nodes, nodes', c, n, d, u, w, i, ids);
    assert w[..i] == w && w[i..] == [];
    PlugConcat(u, Lean(w), NewLeaf(n, d));
  }

  /** The tree A8 builds from pivot t whose child on side a leans the same way. */
  function Single<D>(t: Tree<D>, a: int): (r: Tree<D>)
    requires t.Node? && Child(t, a == -1).Node?
  {
    var s := Child(t, a == -1);
    if a == -1 then Node(s.left, s.id, s.d, 0, Node(s.right, t.id, t.d, 0, t.right))
    else Node(Node(t.left, t.id, t.d, 0, s.left), s.id, s.d, 0, s.right)
  }

  lemma SingleIsRotateIns<D>(t: Tree<D>, a: int)
    requires a == -1 || a == 1
    requires t.Node? && Child(t, a == -1).Node? && Child(t, a == -1).bal == a
    ensures RotateIns(t, a) == Single(t, a)
  {
  }

  /**
   * A8 (avl.c:514-532): the single rotation.  The pivot's child r, which
   * leans the same way a as the pivot b, comes up; b goes down on the other
   * side and takes over r's inner subtree; both end balanced.
   */
  method RotateSingle<D>(nodes: seq<AvlNode<D>>, b: int, r: int, a: int, ghost t: Tree<D>)
    returns (nodes': seq<AvlNode<D>>)
    requires a == -1 || a == 1
    requires Linked(nodes, t) && Distinct(t) && t.Node? && b == t.id
    requires Child(t, a == -1).Node? && r == Child(t, a == -1).id
    ensures Linked(nodes', Single(t, a))
    ensures Reshaped(nodes, nodes', Ids(t))
  {
    ghost var s := Child(t, a == -1);
    assert b != r && b < |nodes| && r < |nodes|;
    nodes' := nodes;
    if a == -1 {
      nodes' := nodes'[b := nodes'[b].(l := nodes'[r].r)];
      nodes' := nodes'[r := nodes'[r].(r := b)];
    } else {
      nodes' := nodes'[b := nodes'[b].(r := nodes'[r].l)];
      nodes' := nodes'[r := nodes'[r].(l := b)];
    }
    nodes' := nodes'[b := nodes'[b].(f := SetBal(nodes'[b].f, 0))];
    nodes' := nodes'[r := nodes'[r].(f := SetBal(nodes'[r].f, 0))];
    assert Reshaped(nodes, nodes', {b, r});
    ReshapedAgree(nodes, nodes', {b, r}, Ids(s.left));
    ReshapedAgree(nodes, nodes', {b, r}, Ids(s.right));
    ReshapedAgree(nodes, nodes', {b, r}, Ids(Child(t, a == 1)));
    LinkedFrame(nodes, nodes', s.left);
    LinkedFrame(nodes, nodes', s.right);
    LinkedFrame(nodes, nodes', Child(t, a == 1));
    ReshapedWiden(nodes, nodes', {b, r}, Ids(t));
  }

  /**
   * The tree after the pointer writes of A9 (avl.c:536-551): the pivot's
   * grandchild c on the inner side on top, the child r and the pivot b
   * below it, all balances as they were.
   */
  function Pivoted<D>(t: Tree<D>, a: int): (r: Tree<D>)
    requires t.Node? && Child(t, a == -1).Node? && Child(Child(t, a == -1), a == 1).Node?
  {
    var s := Child(t, a == -1);
    var g := Child(s, a == 1);
    if a == -1 then Node(Node(s.left, s.id, s.d, s.bal, g.left), g.id, g.d, g.bal, Node(g.right, t.id, t.d, t.bal, t.right))
    else Node(Node(t.left, t.id, t.d, t.bal, g.left), g.id, g.d, g.bal, Node(g.right, s.id, s.d, s.bal, s.right))
  }

  /**
   * The balances A9 then sets (avl.c:553-569), from the old balance of the
   * new top: the pivot gets -a when it was a, the child a when it was -a,
   * and the top ends balanced.
   */
  function Rebalanced<D>(x: Tree<D>, a: int): (r: Tree<D>)
    requires x.Node? && x.left.Node? && x.right.Node?
  {
    var bb := if x.bal == a then -a else 0;
    var rb := if x.bal == -a then a else 0;
    Node(x.left.(bal := if a == -1 then rb else bb), x.id, x.d, 0, x.right.(bal := if a == -1 then bb else rb))
  }

  lemma DoubleIsRotateIns<D>(t: Tree<D>, a: int)
    requires a == -1 || a == 1
    requires t.Node? && Child(t, a == -1).Node? && Child(t, a == -1).bal != a
    requires Child(Child(t, a == -1), a == 1).Node?
    ensures RotateIns(t, a) == Rebalanced(Pivoted(t, a), a)
  {
  }

  /** What Linked and Distinct give about the three nodes A9 moves when the child is the left one. */
  lemma InnerLeft<D>(nodes: seq<AvlNode<D>>, t: Tree<D>)
    requires Linked(nodes, t) && Distinct(t) && t.Node? && t.left.Node? && t.left.right.Node?
    ensures var s := t.left; var g := s.right; var ids := {t.id, s.id, g.id};
      t.id < |nodes| && s.id < |nodes| && g.id < |nodes|
      && t.id != s.id && t.id != g.id && s.id != g.id
      && nodes[t.id].l == s.id && nodes[s.id].r == g.id
      && Holds(nodes[t.id], s.id, t.d, t.bal, Root(t.right))
      && Holds(nodes[s.id], Root(s.left), s.d, s.bal, g.id)
      && Holds(nodes[g.id], Root(g.left), g.d, g.bal, Root(g.right))
      && Linked(nodes, s.left) && Linked(nodes, g.left) && Linked(nodes, g.right) && Linked(nodes, t.right)
      && ids !! Ids(s.left) && ids !! Ids(g.left) && ids !! Ids(g.right) && ids !! Ids(t.right)
      && ids <= Ids(t)
  {
    var s := t.left;
    var g := s.right;
    assert Linked(nodes, s) && Distinct(s);
    assert Linked(nodes, g) && Distinct(g);
    assert Ids(s) == Ids(s.left) + {s.id} + Ids(g);
  }

  /** The mirror image of InnerLeft, for a right child. */
  lemma InnerRight<D>(nodes: seq<AvlNode<D>>, t: Tree<D>)
    requires Linked(nodes, t) && Distinct(t) && t.Node? && t.right.Node? && t.right.left.Node?
    ensures var s := t.right; var g := s.left; var ids := {t.id, s.id, g.id};
      t.id < |nodes| && s.id < |nodes| && g.id < |nodes|
      && t.id != s.id && t.id != g.id && s.id != g.id
      && nodes[t.id].r == s.id && nodes[s.id].l == g.id
      && Holds(nodes[t.id], Root(t.left), t.d, t.bal, s.id)
      && Holds(nodes[s.id], g.id, s.d, s.bal, Root(s.right))
      && Holds(nodes[g.id], Root(g.left), g.d, g.bal, Root(g.right))
      && Linked(nodes, s.right) && Linked(nodes, g.left) && Linked(nodes, g.right) && Linked(nodes, t.left)
      && ids !! Ids(s.right) && ids !! Ids(g.left) && ids !! Ids(g.right) && ids !! Ids(t.left)
      && ids <= Ids(t)
  {
    var s := t.right;
    var g := s.left;
    assert Linked(nodes, s) && Distinct(s);
    assert Linked(nodes, g) && Distinct(g);
    assert Ids(s) == Ids(g) + {s.id} + Ids(s.right);
  }

  /** The pointer writes of A9 when the child is the pivot's left one (avl.c:536-543). */
  method PivotLeft<D>(nodes: seq<AvlNode<D>>, b: int, r: int, ghost t: Tree<D>)
    returns (nodes': seq<AvlNode<D>>, c: int)
    requires Linked(nodes, t) && Distinct(t) && t.Node? && t.left.Node? && t.left.right.Node?
    requires b == t.id && r == t.left.id
    ensures Linked(nodes', Pivoted(t, -1)) && c == Root(Pivoted(t, -1))
    ensures Reshaped(nodes, nodes', {b, r, c}) && {b, r, c} <= Ids(t)
  {
    ghost var s := t.left;
    ghost var g := s.right;
    InnerLeft(nodes, t);
    nodes' := nodes;
    c := nodes'[r].r;
    nodes' := nodes'[r := nodes'[r].(r := nodes'[c].l)];
    nodes' := nodes'[c := nodes'[c].(l := r)];
    nodes' := nodes'[b := nodes'[b].(l := nodes'[c].r)];
    nodes' := nodes'[c := nodes'[c].(r := b)];
    ghost var ids := {b, r, c};
    assert Reshaped(nodes, nodes', ids);
    ReshapedAgree(nodes, nodes', ids, Ids(s.left));
    ReshapedAgree(nodes, nodes', ids, Ids(g.left));
    ReshapedAgree(nodes, nodes', ids, Ids(g.right));
    ReshapedAgree(nodes, nodes', ids, Ids(t.right));
    LinkedFrame(nodes, nodes', s.left);
    LinkedFrame(nodes, nodes', g.left);
    LinkedFrame(nodes, nodes', g.right);
    LinkedFrame(nodes, nodes', t.right);
    assert Linked(nodes', Node(s.left, s.id, s.d, s.bal, g.left));
    assert Linked(nodes', Node(g.right, t.id, t.d, t.bal, t.right));
  }

  /** The pointer writes of A9 when the child is the pivot's right one (avl.c:544-551). */
  method PivotRight<D>(nodes: seq<AvlNode<D>>, b: int, r: int, ghost t: Tree<D>)
    returns (nodes': seq<AvlNode<D>>, c: int)
    requires Linked(nodes, t) && Distinct(t) && t.Node? && t.right.Node? && t.right.left.Node?
    requires b == t.id && r == t.right.id
    ensures Linked(nodes', Pivoted(t, 1)) && c == Root(Pivoted(t, 1))
    ensures Reshaped(nodes, nodes', {b, r, c}) && {b, r, c} <= Ids(t)
  {
    ghost var s := t.right;
    ghost var g := s.left;
    InnerRight(nodes, t);
    nodes' := nodes;
    c := nodes'[r].l;
    nodes' := nodes'[r := nodes'[r].(l := nodes'[c].r)];
    nodes' := nodes'[c := nodes'[c].(r := r)];
    nodes' := nodes'[b := nodes'[b].(r := nodes'[c].l)];
    nodes' := nodes'[c := nodes'[c].(l := b)];
    ghost var ids := {b, r, c};
    assert Reshaped(nodes, nodes', ids);
    ReshapedAgree(nodes, nodes', ids, Ids(s.right));
    ReshapedAgree(nodes, nodes', ids, Ids(g.left));
    ReshapedAgree(nodes, nodes', ids, Ids(g.right));
    ReshapedAgree(nodes, nodes', ids, Ids(t.left));
    LinkedFrame(nodes, nodes', s.right);
    LinkedFrame(nodes, nodes', g.left);
    LinkedFrame(nodes, nodes', g.right);
    LinkedFrame(nodes, nodes', t.left);
    assert Linked(nodes', Node(t.left, t.id, t.d, t.bal, g.left));
    assert Linked(nodes', Node(g.right, s.id, s.d, s.bal, s.right));
  }

  /** The pointer writes of A9 keep the tree's nodes and their exclusive ownership. */
  lemma PivotedDistinct<D>(t: Tree<D>, a: int)
    requires a == -1 || a == 1
    requires t.Node? && Child(t, a == -1).Node? && Child(Child(t, a == -1), a == 1).Node?
    requires Distinct(t)
    ensures Distinct(Pivoted(t, a)) && Ids(Pivoted(t, a)) == Ids(t)
  {
    var s := Child(t, a == -1);
    var g := Child(s, a == 1);
    assert Distinct(s) && Distinct(g);
    if a == -1 {
      assert Ids(s) == Ids(s.left) + {s.id} + Ids(g.left) + {g.id} + Ids(g.right);
    } else {
      assert Ids(s) == Ids(g.left) + {g.id} + Ids(g.right) + {s.id} + Ids(s.right);
    }
  }

  /** Rewriting the balances of a top node and its two children keeps the rest of the tree linked. */
  lemma TopLinked<D>(a0: seq<AvlNode<D>>, a1: seq<AvlNode<D>>, x: Tree<D>, lb: int, rb: int)
    requires x.Node? && x.left.Node? && x.right.Node? && Linked(a0, x) && Distinct(x)
    requires Reshaped(a0, a1, {x.id, x.left.id, x.right.id})
    requires x.id < |a1| && x.left.id < |a1| && x.right.id < |a1|
    requires Holds(a1[x.id], x.left.id, x.d, 0, x.right.id)
    requires Holds(a1[x.left.id], Root(x.left.left), x.left.d, lb, Root(x.left.right))
    requires Holds(a1[x.right.id], Root(x.right.left), x.right.d, rb, Root(x.right.right))
    ensures Linked(a1, Node(x.left.(bal := lb), x.id, x.d, 0, x.right.(bal := rb)))
  {
    var ids := {x.id, x.left.id, x.right.id};
    assert Distinct(x.left) && Distinct(x.right);
    ReshapedAgree(a0, a1, ids, Ids(x.left.left));
    ReshapedAgree(a0, a1, ids, Ids(x.left.right));
    ReshapedAgree(a0, a1, ids, Ids(x.right.left));
    ReshapedAgree(a0, a1, ids, Ids(x.right.right));
    LinkedFrame(a0, a1, x.left.left);
    LinkedFrame(a0, a1, x.left.right);
    LinkedFrame(a0, a1, x.right.left);
    LinkedFrame(a0, a1, x.right.right);
  }

  /**
   * The balance writes of A9 (avl.c:553-569) on the tree x the pointer
   * writes left: c on top, r and b below it on the sides a says.
   */
  method DoubleBalances<D>(nodes: seq<AvlNode<D>>, b: int, r: int, c: int, a: int, ghost x: Tree<D>)
    returns (nodes': seq<AvlNode<D>>)
    requires a == -1 || a == 1
    requires Linked(nodes, x) && Distinct(x) && x.Node? && x.left.Node? && x.right.Node?
    requires -1 <= x.bal <= 1
    requires c == x.id && r == (if a == -1 then x.left.id else x.right.id)
    requires b == (if a == -1 then x.right.id else x.left.id)
    ensures Linked(nodes', Rebalanced(x, a))
    ensures Reshaped(nodes, nodes', {b, r, c})
  {
    assert Linked(nodes, x.left) && Linked(nodes, x.right);
    assert b != r && b != c && r != c;
    var bb, rb;
    var cb := GetBal(nodes[c].f);
    if cb == a {
      bb, rb := -a, 0;
    } else if cb == 0 {
      bb, rb := 0, 0;
    } else {
      bb, rb := 0, a;
    }
    assert cb == x.bal;
    assert bb == (if x.bal == a then -a else 0) && rb == (if x.bal == -a then a else 0);
    nodes' := nodes[b := nodes[b].(f := SetBal(nodes[b].f, bb))];
    nodes' := nodes'[r := nodes'[r].(f := SetBal(nodes'[r].f, rb))];
    nodes' := nodes'[c := nodes'[c].(f := SetBal(nodes'[c].f, 0))];
    assert Reshaped(nodes, nodes', {b, r, c});
    if a == -1 {
      TopLinked(nodes, nodes', x, rb, bb);
      assert Rebalanced(x, a) == Node(x.left.(bal := rb), x.id, x.d, 0, x.right.(bal := bb));
    } else {
      TopLinked(nodes, nodes', x, bb, rb);
      assert Rebalanced(x, a) == Node(x.left.(bal := bb), x.id, x.d, 0, x.right.(bal := rb));
    }
  }

  /**
   * A9 (avl.c:533-570): the double rotation.  The pivot's child r leans
   * against the pivot b; r's inner child c comes up to the top with r and b
   * below it, and the balances follow c's old balance.
   */
  method RotateDouble<D>(nodes: seq<AvlNode<D>>, b: int, r: int, a: int, ghost t: Tree<D>)
    returns (nodes': seq<AvlNode<D>>, c: int)
    requires a == -1 || a == 1
    requires Linked(nodes, t) && Distinct(t) && t.Node? && b == t.id
    requires Child(t, a == -1).Node? && r == Child(t, a == -1).id
    requires Child(Child(t, a == -1), a == 1).Node? && -1 <= Child(Child(t, a == -1), a == 1).bal <= 1
    ensures Linked(nodes', Rebalanced(Pivoted(t, a), a)) && c == Root(Pivoted(t, a))
    ensures Reshaped(nodes, nodes', Ids(t))
  {
    var nodes1;
    if a == -1 {
      nodes1, c := PivotLeft(nodes, b, r, t);
    } else {
      nodes1, c := PivotRight(nodes, b, r, t);
    }
    PivotedDistinct(t, a);
    nodes' := DoubleBalances(nodes1, b, r, c, a, Pivoted(t, a));
    ReshapedTrans(nodes, nodes1, nodes', {b, r, c}, {b, r, c});
    ReshapedWiden(nodes, nodes', {b, r, c}, Ids(t));
  }

  /**
   * The pointer write shared by A10 and by AVL_delete's splices: the
   * child slot of p, the last node of path u, that held b now holds c;
   * which slot that is is found by comparing the left pointer with b, and
   * returned in left.
   */
  method SetChild<D>(nodes: seq<AvlNode<D>>, p: int, b: int, c: int, ghost u: seq<Frame<D>>)
    returns (nodes': seq<AvlNode<D>>, left: bool)
    requires |u| > 0 && LinkedPath(nodes, u, b) && DistinctPath(u) && p == u[|u| - 1].id && b >= 0
    requires b !in Ids(u[|u| - 1].sib)
    ensures p < |nodes| && nodes' == nodes[p := WithChild(nodes[p], u[|u| - 1].goLeft, c)]
    ensures left == u[|u| - 1].goLeft
    ensures LinkedPath(nodes', u, c) && Reshaped(nodes, nodes', PathIds(u))
  {
    HoleSide(nodes, u, b);
    left := nodes[p].l == b;
    if left {
      nodes' := nodes[p := nodes[p].(l := c)];
    } else {
      nodes' := nodes[p := nodes[p].(r := c)];
    }
    assert nodes' == nodes[p := WithChild(nodes[p], u[|u| - 1].goLeft, c)];
    Retarget(nodes, u, b, c);
    PathIdsHas(u, |u| - 1);
  }

  /**
   * A10 (avl.c:573-583): hang the rebuilt subtree t', rooted at c, where
   * the pivot b was: in the pivot's parent p on the side that led to b, or
   * as the new top when b was the top.
   */
  method TouchUp<D>(nodes0: seq<AvlNode<D>>, nodes: seq<AvlNode<D>>, top: int, p: int, b: int, c: int,
                    ghost u: seq<Frame<D>>, ghost t: Tree<D>, ghost t': Tree<D>)
    returns (nodes': seq<AvlNode<D>>, top': int)
    requires Linked(nodes0, Plug(u, t)) && Distinct(Plug(u, t)) && t.Node? && b == t.id && top == Root(Plug(u, t))
    requires p == (if |u| == 0 then NULL else u[|u| - 1].id)
    requires Reshaped(nodes0, nodes, Ids(t)) && Linked(nodes, t') && Ids(t') == Ids(t) && c == Root(t')
    ensures Linked(nodes', Plug(u, t')) && top' == Root(Plug(u, t'))
    ensures Reshaped(nodes0, nodes', Ids(Plug(u, t)))
  {
    assert LinkedPath(nodes, u, b) && DistinctPath(u) && PathIds(u) !! Ids(t) by {
      LinkedAt(nodes0, u, t);
      DistinctPlug(u, t);
      ReshapedAgree(nodes0, nodes, Ids(t), PathIds(u));
      LinkedPathFrame(nodes0, nodes, u, b);
    }
    IdsPlug(u, t);
    ReshapedWiden(nodes0, nodes, Ids(t), Ids(Plug(u, t)));
    if p != NULL {
      assert b !in Ids(u[|u| - 1].sib) by {
        PathIdsHas(u, |u| - 1);
      }
      var left;
      nodes', left := SetChild(nodes, p, b, c, u);
      assert Agree(nodes, nodes', Ids(t')) by {
        ReshapedAgree(nodes, nodes', PathIds(u), Ids(t'));
      }
      LinkedFrame(nodes, nodes', t');
      top' := top;
      RootPlug(u, t);
      RootPlug(u, t');
      ReshapedTrans(nodes0, nodes, nodes', Ids(Plug(u, t)), PathIds(u));
    } else {
      nodes', top' := nodes, c;
    }
    LinkedPlug(nodes', u, t');
  }

  /**
   * A7.iii (avl.c:511-584): the pivot t leans to side a, the side that grew;
   * A8 when its child r there leans the same way, A9 otherwise.  c is the
   * top of the rotated subtree.
   */
  method Rotate<D>(nodes: seq<AvlNode<D>>, b: int, r: int, a: int, ghost t: Tree<D>)
    returns (nodes': seq<AvlNode<D>>, c: int)
    requires a == -1 || a == 1
    requires Linked(nodes, t) && Distinct(t) && t.Node? && b == t.id
    requires Child(t, a == -1).Node? && r == Child(t, a == -1).id && -1 <= Child(t, a == -1).bal <= 1
    requires Child(t, a == -1).bal != a ==>
      Child(Child(t, a == -1), a == 1).Node? && -1 <= Child(Child(t, a == -1), a == 1).bal <= 1
    ensures Linked(nodes', RotateIns(t, a)) && c == Root(RotateIns(t, a))
    ensures Reshaped(nodes, nodes', Ids(t))
  {
    assert Linked(nodes, Child(t, a == -1));
    if GetBal(nodes[r].f) == a {
      nodes' := RotateSingle(nodes, b, r, a, t);
      c := r;
      SingleIsRotateIns(t, a);
    } else {
      nodes', c := RotateDouble(nodes, b, r, a, t);
      DoubleIsRotateIns(t, a);
    }
  }

  /**
   * A7 (avl.c:498-584) at the pivot t below path u, after A6: the pivot's
   * side a has grown.  A7.i records the lean and reports that the tree
   * grew, A7.ii records the balance, A7.iii rotates and A10 hangs the
   * rotated subtree back in place.
   */
  method AtPivot<D>(nodes: seq<AvlNode<D>>, top: int, b: int, p: int, r: int, a: int,
                    ghost u: seq<Frame<D>>, ghost t: Tree<D>)
    returns (nodes': seq<AvlNode<D>>, top': int, grew: bool)
    requires a == -1 || a == 1
    requires Linked(nodes, Plug(u, t)) && Distinct(Plug(u, t)) && t.Node? && b == t.id && top == Root(Plug(u, t))
    requires p == (if |u| == 0 then NULL else u[|u| - 1].id) && -1 <= t.bal <= 1
    requires r == Root(Child(t, a == -1))
    requires t.bal == a ==> Child(t, a == -1).Node? && -1 <= Child(t, a == -1).bal <= 1
    requires t.bal == a && Child(t, a == -1).bal != a ==>
      Child(Child(t, a == -1), a == 1).Node? && -1 <= Child(Child(t, a == -1), a == 1).bal <= 1
    ensures Linked(nodes', Plug(u, Rebalance(t, a))) && top' == Root(Plug(u, Rebalance(t, a)))
    ensures grew == (t.bal == 0)
    ensures Reshaped(nodes, nodes', Ids(Plug(u, t)))
  {
    LinkedAt(nodes, u, t);
    var bal := GetBal(nodes[b].f);
    if bal == 0 || bal == -a {
      var nb := if bal == 0 then a else 0;
      nodes' := nodes[b := nodes[b].(f := SetBal(nodes[b].f, nb))];
      WriteNode(nodes, u, t, nodes'[b], nb);
      assert Reshaped(nodes, nodes', {b});
      ReshapedWiden(nodes, nodes', {b}, Ids(Plug(u, t)));
      top', grew := top, bal == 0;
    } else {
      DistinctPlug(u, t);
      var nodes1, c := Rotate(nodes, b, r, a, t);
      nodes', top' := TouchUp(nodes, nodes1, top, p, b, c, u, t, RotateIns(t, a));
      grew := false;
    }
  }

  /**
   * The shapes A7 meets at a pivot f over the grown subtree s (t0 before):
   * balances in range, and when the pivot already leant to the grown side
   * and the child leans against it, the inner grandchild exists.
   */
  lemma PivotShape<D>(f: Frame<D>, t0: Tree<D>, s: Tree<D>)
    requires AVL(PlugOne(f, t0)) && AVL(s) && Height(s) == Height(t0) + 1 && s.Node?
    requires s.bal != 0 || Height(t0) == 0
    ensures -1 <= f.bal <= 1 && -1 <= s.bal <= 1
    ensures f.bal == Dir(f) && s.bal != Dir(f) ==>
      Child(s, Dir(f) == 1).Node? && -1 <= Child(s, Dir(f) == 1).bal <= 1
  {
    if f.bal == Dir(f) && s.bal != Dir(f) {
      assert Height(t0) >= 1;
      assert s.bal == -Dir(f);
    }
  }

  /** A5 (avl.c:413-420, 441-448): node n takes payload d and is linked below c on side goLeft. */
  method LinkNew<D>(nodes: seq<AvlNode<D>>, c: int, goLeft: bool, n: nat, d: D, ghost z: seq<Frame<D>>)
    returns (nodes': seq<AvlNode<D>>)
    requires |z| > 0 && c == z[|z| - 1].id && goLeft == z[|z| - 1].goLeft
    requires Linked(nodes, Plug(z, Leaf)) && Distinct(Plug(z, Leaf))
    requires n < |nodes| && n !in Ids(Plug(z, Leaf))
    requires nodes[n].l == NULL && nodes[n].r == NULL && GetBal(nodes[n].f) == 0
    ensures Linked(nodes', Plug(z, NewLeaf(n, d))) && Distinct(Plug(z, NewLeaf(n, d)))
    ensures Ids(Plug(z, NewLeaf(n, d))) == Ids(Plug(z, Leaf)) + {n}
    ensures Reshaped(nodes, nodes', Ids(Plug(z, Leaf)) + {n})
  {
    LinkedPlug(nodes, z, Leaf);
    var nodes1 := nodes[n := nodes[n].(d := Some(d))];
    if goLeft {
      nodes' := nodes1[c := nodes1[c].(l := n)];
    } else {
      nodes' := nodes1[c := nodes1[c].(r := n)];
    }
    assert nodes' == nodes1[c := WithChild(nodes1[c], goLeft, n)];
    LinkLeaf(nodes, nodes1, nodes', z, n, d);
  }

  /**
   * A6 (avl.c:457-495): the side a of the pivot b (frame f below path u)
   * on which n was added, its child r there, and the balances on the way
   * from r down to n, which all lean towards n.
   */
  method GrowSide<D>(eval: (D, D) -> int, nodes: seq<AvlNode<D>>, b: int, n: nat, d: D,
                     ghost u: seq<Frame<D>>, ghost f: Frame<D>, ghost w: seq<Frame<D>>)
    returns (nodes': seq<AvlNode<D>>, a: int, r: int)
    requires SearchPath(eval, [f] + w, d) && b == f.id
    requires Linked(nodes, Plug(u, PlugOne(f, Plug(w, NewLeaf(n, d)))))
    requires Distinct(Plug(u, PlugOne(f, Plug(w, NewLeaf(n, d)))))
    ensures a == Dir(f) && r == Root(Plug(Lean(w), NewLeaf(n, d)))
    ensures Linked(nodes', Plug(u, PlugOne(f, Plug(Lean(w), NewLeaf(n, d)))))
    ensures Distinct(Plug(u, PlugOne(f, Plug(Lean(w), NewLeaf(n, d)))))
    ensures Ids(Plug(u, PlugOne(f, Plug(Lean(w), NewLeaf(n, d))))) == Ids(Plug(u, PlugOne(f, Plug(w, NewLeaf(n, d)))))
    ensures Reshaped(nodes, nodes', Ids(Plug(u, PlugOne(f, Plug(w, NewLeaf(n, d))))))
  {
    ghost var leaf := NewLeaf(n, d);
    LinkedAt(nodes, u, PlugOne(f, Plug(w, leaf)));
    var e := eval(nodes[b].d.value, d);
    assert ([f] + w)[0] == f;
    if e < 0 {
      a, r := -1, nodes[b].l;
    } else {
      a, r := 1, nodes[b].r;
    }
    PlugSnoc(u, f, Plug(w, leaf));
    PlugSnoc(u, f, Plug(Lean(w), leaf));
    assert SearchPath(eval, w, d) by {
      assert forall j :: 0 <= j < |w| ==> w[j] == ([f] + w)[j + 1];
    }
    nodes' := LeanPath(eval, nodes, r, n, d, u + [f], w);
    if |w| > 0 {
      RootPlug(w, leaf);
      RootPlug(Lean(w), leaf);
    }
  }

  /**
   * A6-A10 (avl.c:457-585) once n hangs below the last frame of [f] + w,
   * f being the pivot below path u: lean the nodes from the pivot's child
   * down to n and correct the pivot.
   */
  method Grow<D>(eval: (D, D) -> int, nodes: seq<AvlNode<D>>, top: int, b: int, p: int, n: nat, d: D,
                 ghost u: seq<Frame<D>>, ghost f: Frame<D>, ghost w: seq<Frame<D>>)
    returns (nodes': seq<AvlNode<D>>, top': int, grew: bool)
    requires SearchPath(eval, [f] + w, d) && b == f.id && p == (if |u| == 0 then NULL else u[|u| - 1].id)
    requires Linked(nodes, Plug(u, PlugOne(f, Plug(w, NewLeaf(n, d)))))
    requires Distinct(Plug(u, PlugOne(f, Plug(w, NewLeaf(n, d)))))
    requires top == Root(Plug(u, PlugOne(f, Plug(Lean(w), NewLeaf(n, d)))))
    requires var s := Plug(Lean(w), NewLeaf(n, d)); var t := PlugOne(f, s); var a := Dir(f);
      -1 <= t.bal <= 1 && Child(t, a == -1) == s && s.Node?
      && (t.bal == a ==> -1 <= s.bal <= 1)
      && (t.bal == a && s.bal != a ==> Child(s, a == 1).Node? && -1 <= Child(s, a == 1).bal <= 1)
    ensures Linked(nodes', Plug(u, Rebalance(PlugOne(f, Plug(Lean(w), NewLeaf(n, d))), Dir(f))))
    ensures top' == Root(Plug(u, Rebalance(PlugOne(f, Plug(Lean(w), NewLeaf(n, d))), Dir(f))))
    ensures grew == (f.bal == 0)
    ensures Reshaped(nodes, nodes', Ids(Plug(u, PlugOne(f, Plug(w, NewLeaf(n, d))))))
  {
    var nodes1, a, r := GrowSide(eval, nodes, b, n, d, u, f, w);
    nodes', top', grew := AtPivot(nodes1, top, b, p, r, a, u, PlugOne(f, Plug(Lean(w), NewLeaf(n, d))));
    ReshapedTrans(nodes, nodes1, nodes', Ids(Plug(u, PlugOne(f, Plug(w, NewLeaf(n, d))))),
                  Ids(Plug(u, PlugOne(f, Plug(w, NewLeaf(n, d))))));
  }

  /**
   * AVL_insert from the hole onwards (avl.c:413-420 or 441-448, then
   * 457-585): node n, fresh from the allocator, takes payload d and is
   * linked below c on side goLeft; A6 sets the balances from the pivot b
   * down to n, and A7-A10 correct the pivot.  The arena then holds the
   * tree KnuthInsert describes, and grew says whether it is one taller.
   */
  method Place<D>(eval: (D, D) -> int, nodes: seq<AvlNode<D>>, top: int, c: int, goLeft: bool, b: int, p: int,
                  n: nat, d: D, ghost z: seq<Frame<D>>)
    returns (nodes': seq<AvlNode<D>>, top': int, grew: bool)
    requires HoleAt(eval, Plug(z, Leaf), d, c, goLeft, b, p, z)
    requires Linked(nodes, Plug(z, Leaf)) && Distinct(Plug(z, Leaf)) && AVL(Plug(z, Leaf))
    requires top == Root(Plug(z, Leaf))
    requires n < |nodes| && n !in Ids(Plug(z, Leaf))
    requires nodes[n].l == NULL && nodes[n].r == NULL && GetBal(nodes[n].f) == 0
    ensures Linked(nodes', KnuthInsert(z, n, d)) && top' == Root(KnuthInsert(z, n, d))
    ensures grew == Grows(z)
    ensures Reshaped(nodes, nodes', Ids(Plug(z, Leaf)) + {n})
  {
    var nodes1 := LinkNew(nodes, c, goLeft, n, d, z);
    ghost var bp := Pivot(z);
    PlaceSplit(eval, z, n, d);
    PlaceBalance(z[..bp], z[bp], z[bp + 1..], n, d);
    nodes', top', grew := Grow(eval, nodes1, top, b, p, n, d, z[..bp], z[bp], z[bp + 1..]);
    ReshapedTrans(nodes, nodes1, nodes', Ids(Plug(z, Leaf)) + {n}, Ids(Plug(z, NewLeaf(n, d))));
  }

  /** What Place hands to Grow: the path z split at its pivot, with the pivot's subtree AVL. */
  lemma PlaceSplit<D>(eval: (D, D) -> int, z: seq<Frame<D>>, n: nat, d: D)
    requires |z| > 0 && AVL(Plug(z, Leaf)) && SearchPath(eval, z, d)
    ensures var bp := Pivot(z); var u, f, w := z[..bp], z[bp], z[bp + 1..];
      var t := PlugOne(f, Plug(Lean(w), NewLeaf(n, d)));
      |u| == bp && SearchPath(eval, [f] + w, d)
      && Plug(z, NewLeaf(n, d)) == Plug(u, PlugOne(f, Plug(w, NewLeaf(n, d))))
      && KnuthInsert(z, n, d) == Plug(u, Rebalance(t, Dir(f))) && Grows(z) == (f.bal == 0)
      && Root(Plug(u, t)) == Root(Plug(z, Leaf)) && Plug(z, Leaf) == Plug(u, PlugOne(f, Plug(w, Leaf)))
  {
    var bp := Pivot(z);
    var u, f, w := z[..bp], z[bp], z[bp + 1..];
    var t0, s := Plug(w, Leaf), Plug(Lean(w), NewLeaf(n, d));
    PlugSplit(z, bp, Leaf);
    PlugSplit(z, bp, NewLeaf(n, d));
    assert SearchPath(eval, [f] + w, d) by {
      assert forall j :: 0 <= j < |[f] + w| ==> ([f] + w)[j] == z[bp + j];
    }
    PlugSnoc(u, f, t0);
    PlugSnoc(u, f, s);
    RootPlug(u + [f], t0);
    RootPlug(u + [f], s);
  }

  /** The shapes A7 meets at the pivot f, with every frame of w below it balanced. */
  lemma PlaceBalance<D>(u: seq<Frame<D>>, f: Frame<D>, w: seq<Frame<D>>, n: nat, d: D)
    requires AVL(Plug(u, PlugOne(f, Plug(w, Leaf)))) && forall j :: 0 <= j < |w| ==> w[j].bal == 0
    ensures var s := Plug(Lean(w), NewLeaf(n, d)); var t := PlugOne(f, s); var a := Dir(f);
      -1 <= t.bal <= 1 && Child(t, a == -1) == s && s.Node?
      && (t.bal == a ==> -1 <= s.bal <= 1)
      && (t.bal == a && s.bal != a ==> Child(s, a == 1).Node? && -1 <= Child(s, a == 1).bal <= 1)
  {
    var t0 := Plug(w, Leaf);
    AvlSub(u, PlugOne(f, t0));
    assert AVL(t0);
    BelowPivot(w, n, d);
    PivotShape(f, t0, Plug(Lean(w), NewLeaf(n, d)));
  }

  /**
   * What AVL_insert promises about the tree it builds at the hole z of an
   * ordered AVL tree: still AVL and ordered, d inserted in sorted position,
   * one node more, taller by one exactly when Grows(z), and n the only new
   * node.
   */
  lemma InsertResult<D(!new)>(eval: (D, D) -> int, z: seq<Frame<D>>, n: nat, d: D)
    requires IsComparator(eval) && |z| > 0 && SearchPath(eval, z, d)
    requires AVL(Plug(z, Leaf)) && Ordered(eval, Plug(z, Leaf)) && Distinct(Plug(z, Leaf)) && n !in Ids(Plug(z, Leaf))
    ensures var t, t' := Plug(z, Leaf), KnuthInsert(z, n, d);
      AVL(t') && Ordered(eval, t') && Distinct(t') && Ids(t') == Ids(t) + {n}
      && Inorder(t') == InsertSorted(eval, Inorder(t), d) && Size(t') == Size(t) + 1
      && Height(t') == Height(t) + (if Grows(z) then 1 else 0)
  {
    var t, t' := Plug(z, Leaf), KnuthInsert(z, n, d);
    KnuthInsertCorrect(eval, z, n, d);
    HoleContents(z, n, d);
    SearchPathSplit(eval, z, Leaf, d);
    InsertSortedSplit(eval, PathLeft(z), d, PathRight(z));
    InorderSize(t);
    InorderSize(t');
  }
}
