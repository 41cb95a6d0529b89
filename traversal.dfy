/**
 * Positions of the explicit-stack traversals AVL_walk (avl.c:1195-1267) and
 * AVL_flush (avl.c:147-197).  A traversal stands at subtree s of tree t,
 * reached along path z (Plug(z, s) == t); the lemmas here say what the
 * arena shows at such a position and how a step down or up moves it.
 */
module Traversal {
  import opened Order
  import opened Trees
  import opened Arena

  /**
   * What an in-order walk standing at s below z has handed out: on arrival
   * (phase 0) everything left of s, after the left subtree (phase 1) that
   * too, and after s itself (phase 2) all of s as well.
   */
  ghost function Visited<D>(z: seq<Frame<D>>, s: Tree<D>, phase: int): (r: seq<D>)
    requires s.Node?
  {
    if phase == 0 then PathLeft(z)
    else if phase == 1 then PathLeft(z) + Inorder(s.left)
    else PathLeft(z) + Inorder(s)
  }

  /** A prefix of a sorted sequence is sorted. */
  lemma SortedPrefix<D>(eval: (D, D) -> int, s: seq<D>, p: seq<D>)
    requires Sorted(eval, s) && p <= s
    ensures Sorted(eval, p)
  {
    forall i, j | 0 <= i < j < |p| ensures Before(eval, p[i], p[j]) {
      assert p[i] == s[i] && p[j] == s[j];
    }
  }

  /**
   * Standing at s below z in t: the arena holds s's links, s's child
   * pointers differ from every node above s and from s itself, the path is
   * shorter than the tree is high, and the walk's output in each phase is a
   * prefix of t's in-order sequence.
   */
  lemma Position<D>(nodes: seq<AvlNode<D>>, t: Tree<D>, z: seq<Frame<D>>, s: Tree<D>)
    requires Linked(nodes, t) && Distinct(t) && s.Node? && Plug(z, s) == t
    ensures s.id < |nodes| && Holds(nodes[s.id], Root(s.left), s.d, s.bal, Root(s.right))
    ensures Linked(nodes, s)
    ensures |z| == 0 ==> Root(t) == s.id
    ensures forall i :: 0 <= i < |z| ==> z[i].id != Root(s.left) && z[i].id != Root(s.right)
    ensures s.id != Root(s.left) && s.id != Root(s.right)
    ensures s.left.Node? ==> Root(s.left) != Root(s.right)
    ensures Height(t) >= |z| + 1
    ensures Visited(z, s, 0) <= Visited(z, s, 1) <= Visited(z, s, 2) <= Inorder(t)
    ensures |Inorder(t)| == Size(t)
  {
    PositionLinks(nodes, t, z, s);
    PositionOutput(t, z, s);
    HeightPlug(z, s);
  }

  lemma PositionLinks<D>(nodes: seq<AvlNode<D>>, t: Tree<D>, z: seq<Frame<D>>, s: Tree<D>)
    requires Linked(nodes, t) && Distinct(t) && s.Node? && Plug(z, s) == t
    ensures Linked(nodes, s)
    ensures forall i :: 0 <= i < |z| ==> z[i].id != Root(s.left) && z[i].id != Root(s.right)
    ensures s.id != Root(s.left) && s.id != Root(s.right)
    ensures s.left.Node? ==> Root(s.left) != Root(s.right)
  {
    LinkedPlug(nodes, z, s);
    DistinctPlug(z, s);
    forall i | 0 <= i < |z| ensures z[i].id != Root(s.left) && z[i].id != Root(s.right) {
      PathIdsHas(z, i);
    }
  }

  lemma PositionOutput<D>(t: Tree<D>, z: seq<Frame<D>>, s: Tree<D>)
    requires s.Node? && Plug(z, s) == t
    ensures Visited(z, s, 0) <= Visited(z, s, 1) <= Visited(z, s, 2) <= Inorder(t)
    ensures |Inorder(t)| == Size(t)
  {
    InorderPlug(z, s);
    InorderSize(t);
    assert Inorder(s.left) <= Inorder(s) by {
      Prefixes([], Inorder(s.left), Inorder(s.left) + [s.d], Inorder(s.right));
    }
    Prefixes(PathLeft(z), Inorder(s.left), Inorder(s), PathRight(z));
  }

  /** Prefixes of a + c + r, for b a prefix of c. */
  lemma Prefixes<D>(a: seq<D>, b: seq<D>, c: seq<D>, r: seq<D>)
    requires b <= c
    ensures a <= a + b <= a + c <= a + c + r
  {
    assert (a + c)[..|a + b|] == a + b;
    assert (a + c + r)[..|a + c|] == a + c;
  }

  /** Stepping from s into a non-empty child: the walk has handed out exactly what lies left of the child. */
  lemma Descend<D>(t: Tree<D>, z: seq<Frame<D>>, s: Tree<D>, goLeft: bool)
    requires s.Node? && Plug(z, s) == t && Child(s, goLeft).Node?
    ensures Plug(z + [Step(s, goLeft)], Child(s, goLeft)) == t
    ensures Visited(z + [Step(s, goLeft)], Child(s, goLeft), 0)
            == if goLeft then Visited(z, s, 0) else Visited(z, s, 1) + [s.d]
  {
    PlugSnoc(z, Step(s, goLeft), Child(s, goLeft));
    StepPlug(s, goLeft);
    assert (z + [Step(s, goLeft)])[..|z|] == z;
  }

  /** Popping back from s to its parent: the output so far is the parent's left part or the whole parent. */
  lemma Ascend<D>(t: Tree<D>, z: seq<Frame<D>>, s: Tree<D>)
    requires |z| > 0 && s.Node? && Plug(z, s) == t
    ensures Plug(z[..|z| - 1], PlugOne(z[|z| - 1], s)) == t
    ensures Visited(z, s, 2)
            == Visited(z[..|z| - 1], PlugOne(z[|z| - 1], s), if z[|z| - 1].goLeft then 1 else 2)
  {
    var f := z[|z| - 1];
    if !f.goLeft {
      var a, b, c := PathLeft(z[..|z| - 1]), Inorder(f.sib) + [f.d], Inorder(s);
      assert a + b + c == a + (b + c);
    }
  }

  /** Handing out a node without a right subtree finishes it. */
  lemma VisitedLast<D>(z: seq<Frame<D>>, s: Tree<D>)
    requires s.Node? && s.right == Leaf
    ensures Visited(z, s, 1) + [s.d] == Visited(z, s, 2)
  {
    assert Inorder(s) == Inorder(s.left) + [s.d];
  }

  /**
   * Where AVL_walk (avl.c:1202-1263) stands: at s below z (phase < 3) or
   * finished (phase 3, stack empty).  The stack holds the top node and then
   * the nodes of z; the previous node p is the parent's slot of the stack on
   * arrival (phase 0), the left child after the left subtree (phase 1) and
   * the right child after s (phase 2).
   */
  ghost predicate WalkAt<D>(nodes: seq<AvlNode<D>>, t: Tree<D>, st: seq<int>, sp: int, c: int, p: int,
                            out: seq<D>, z: seq<Frame<D>>, s: Tree<D>, phase: int)
  {
    Linked(nodes, t) && Distinct(t) && 0 <= phase <= 3 && (phase == 3 <==> sp == 0) && 0 <= sp <= |st|
    && out <= Inorder(t) && |Inorder(t)| == Size(t)
    && (phase == 3 ==> out == Inorder(t))
    && (phase < 3 ==>
          sp == |z| + 1 && s.Node? && Plug(z, s) == t && c == s.id && Height(t) >= |z| + 1
          && st[0] == Root(t) && (forall i :: 1 <= i < sp ==> st[i] == z[i - 1].id)
          && out == Visited(z, s, phase)
          && (phase == 0 ==> p == st[sp - 1])
          && (phase == 1 ==> p == Root(s.left))
          && (phase == 2 ==> p == Root(s.right)))
  }

  // ------------------------------------------------------------------
  // AVL_flush (avl.c:147-197)
  // ------------------------------------------------------------------

  /**
   * The free-stack order AVL_flush leaves: it releases the nodes in
   * post-order and pushes each, so the top node ends on top, above all of
   * its right subtree, above all of its left subtree.
   */
  function FlushOrder<D>(t: Tree<D>): (r: seq<nat>) {
    match t
    case Leaf => []
    case Node(l, i, _, _, r) => [i] + FlushOrder(r) + FlushOrder(l)
  }

  /** The flush order lists exactly the tree's nodes, each once. */
  lemma {:induction false} FlushOrderIds<D>(t: Tree<D>)
    requires Distinct(t)
    ensures forall i :: i in FlushOrder(t) <==> i in Ids(t)
    ensures NoDup(FlushOrder(t)) && |FlushOrder(t)| == Size(t)
  {
    match t
    case Leaf =>
    case Node(l, i, _, _, r) =>
      FlushOrderIds(l);
      FlushOrderIds(r);
      NoDupConcat(FlushOrder(r), FlushOrder(l));
      NoDupConcat([i], FlushOrder(r) + FlushOrder(l));
      assert [i] + FlushOrder(r) + FlushOrder(l) == [i] + (FlushOrder(r) + FlushOrder(l));
  }

  /** Two sequences without repetitions and without common entries concatenate to one. */
  lemma NoDupConcat(a: seq<nat>, b: seq<nat>)
    requires NoDup(a) && NoDup(b) && forall x :: x in a ==> x !in b
    ensures NoDup(a + b)
  {
    forall i, j | 0 <= i < j < |a + b| ensures (a + b)[i] != (a + b)[j] {
      if j < |a| {
        assert (a + b)[i] == a[i] && (a + b)[j] == a[j];
      } else if i < |a| {
        assert (a + b)[i] == a[i] && a[i] in a && (a + b)[j] == b[j - |a|];
      } else {
        assert (a + b)[i] == b[i - |a|] && (a + b)[j] == b[j - |a|];
      }
    }
  }

  /** A path that goes right only past an empty left subtree: where AVL_flush stands. */
  ghost predicate FirstPath<D>(z: seq<Frame<D>>) {
    forall i :: 0 <= i < |z| ==> z[i].goLeft || z[i].sib == Leaf
  }

  /** Along such a path the subtree in the hole is flushed last. */
  lemma {:induction false} FlushOrderPlug<D>(z: seq<Frame<D>>, t: Tree<D>)
    requires FirstPath(z)
    ensures FlushOrder(Plug(z, t)) == FlushOrder(Plug(z, Leaf)) + FlushOrder(t)
    decreases |z|
  {
    if |z| > 0 {
      var z', f := z[..|z| - 1], z[|z| - 1];
      assert FirstPath(z');
      assert f.goLeft || f.sib == Leaf;
      FlushOrderPlug(z', PlugOne(f, t));
      FlushOrderPlug(z', PlugOne(f, Leaf));
    }
  }

  /** A smaller, no higher subtree in the hole makes a smaller, no higher tree. */
  lemma {:induction false} PlugShrink<D>(z: seq<Frame<D>>, a: Tree<D>, b: Tree<D>)
    requires Size(a) < Size(b) && Height(a) <= Height(b)
    ensures Size(Plug(z, a)) < Size(Plug(z, b)) && Height(Plug(z, a)) <= Height(Plug(z, b))
    decreases |z|
  {
    if |z| > 0 {
      var f := z[|z| - 1];
      PlugShrink(z[..|z| - 1], PlugOne(f, a), PlugOne(f, b));
    }
  }

  /** Taking a leaf node s out of the hole of z: what AVL_flush's pop leaves. */
  lemma PruneLeaf<D>(z: seq<Frame<D>>, s: Tree<D>)
    requires Distinct(Plug(z, s)) && s.Node? && s.left == Leaf && s.right == Leaf
    ensures Distinct(Plug(z, Leaf)) && s.id in Ids(Plug(z, s))
    ensures Ids(Plug(z, Leaf)) == Ids(Plug(z, s)) - {s.id}
    ensures Size(Plug(z, Leaf)) < Size(Plug(z, s)) && Height(Plug(z, Leaf)) <= Height(Plug(z, s))
    ensures |z| > 0 ==> Root(Plug(z, Leaf)) == Root(Plug(z, s))
    ensures FirstPath(z) ==> FlushOrder(Plug(z, s)) == FlushOrder(Plug(z, Leaf)) + [s.id]
  {
    DistinctPlug(z, s);
    DistinctReplace(z, s, Leaf);
    IdsPlug(z, s);
    IdsPlug(z, Leaf);
    PlugShrink(z, Leaf, s);
    if |z| > 0 {
      RootPlug(z, s);
      RootPlug(z, Leaf);
    }
    if FirstPath(z) {
      FlushOrderPlug(z, s);
    }
  }

  /**
   * Clearing the parent's pointer to the popped leaf in AVL_flush (avl.c:183-186):
   * the parent m of a leaf node points at it on the side the path says, and
   * clearing that pointer leaves the arena representing the tree without
   * the leaf.
   */
  lemma CutLeaf<D>(nodes: seq<AvlNode<D>>, z: seq<Frame<D>>, s: Tree<D>)
    requires Linked(nodes, Plug(z, s)) && Distinct(Plug(z, s)) && s.Node? && |z| > 0
    ensures z[|z| - 1].id < |nodes|
    ensures nodes[z[|z| - 1].id].l == s.id <==> z[|z| - 1].goLeft
    ensures !z[|z| - 1].goLeft ==> nodes[z[|z| - 1].id].r == s.id
    ensures var m := z[|z| - 1].id;
      Linked(nodes[m := WithChild(nodes[m], z[|z| - 1].goLeft, NULL)], Plug(z, Leaf))
  {
    var f := z[|z| - 1];
    LinkedPlug(nodes, z, s);
    DistinctPlug(z, s);
    assert PathIds(z) == PathIds(z[..|z| - 1]) + {f.id} + Ids(f.sib);
    HoleSide(nodes, z, s.id);
    Retarget(nodes, z, s.id, NULL);
    LinkedPlug(nodes[f.id := WithChild(nodes[f.id], f.goLeft, NULL)], z, Leaf);
  }

  /**
   * AVL_flush's pop of leaf s below z (avl.c:176-191) on the whole memory:
   * with the parent's pointer cut (when s has a parent) and s released, the
   * arena represents the tree without s and s is the new top of the free
   * stack.
   */
  lemma ReleaseLeaf<D>(n: nat, nodes: seq<AvlNode<D>>, live: seq<bool>, head: int, free: seq<nat>,
                       z: seq<Frame<D>>, s: Tree<D>)
    requires Mem(n, nodes, live, Plug(z, s), head, free, {}) && s.Node? && s.left == Leaf && s.right == Leaf
    ensures |z| > 0 ==> z[|z| - 1].id < |nodes| && (nodes[z[|z| - 1].id].l == s.id <==> z[|z| - 1].goLeft)
                        && (!z[|z| - 1].goLeft ==> nodes[z[|z| - 1].id].r == s.id)
    ensures var cut := if |z| > 0 then nodes[z[|z| - 1].id := WithChild(nodes[z[|z| - 1].id], z[|z| - 1].goLeft, NULL)]
                       else nodes;
      s.id < |cut| && Mem(n, cut[s.id := Released(cut[s.id], head)], live, Plug(z, Leaf), s.id, [s.id] + free, {})
  {
    var t := Plug(z, s);
    PruneLeaf(z, s);
    var cut := nodes;
    if |z| > 0 {
      var f := z[|z| - 1];
      CutLeaf(nodes, z, s);
      IdsPlug(z, s);
      assert f.id in PathIds(z);
      Relink(n, nodes, live, Ids(t), head, free, {}, f.id, WithChild(nodes[f.id], f.goLeft, NULL));
      cut := nodes[f.id := WithChild(nodes[f.id], f.goLeft, NULL)];
    }
    Release(n, cut, live, Ids(t), head, free, s.id);
    LinkedFrame(cut, cut[s.id := Released(cut[s.id], head)], Plug(z, Leaf));
  }

  /**
   * Where AVL_flush stands: r is what is left of the tree t, the arena
   * represents it and the nodes released so far sit on the free stack.
   */
  ghost predicate FlushAt<D>(n: nat, nodes: seq<AvlNode<D>>, live: seq<bool>, head: int, free: seq<nat>,
                             st: seq<int>, sp: int, c: int, z: seq<Frame<D>>, s: Tree<D>, r: Tree<D>,
                             t: Tree<D>, free0: seq<nat>)
  {
    Mem(n, nodes, live, r, head, free, {}) && FlushPos(st, sp, c, z, s, r, t, free, free0)
  }

  /**
   * The released nodes sit above the old free stack free0 in flush order,
   * and while the stack is not empty the current node c is s below z in r,
   * with the top node and then the nodes of z on the stack.
   */
  ghost predicate FlushPos<D>(st: seq<int>, sp: int, c: int, z: seq<Frame<D>>, s: Tree<D>, r: Tree<D>,
                              t: Tree<D>, free: seq<nat>, free0: seq<nat>)
  {
    FlushOrder(t) + free0 == FlushOrder(r) + free
    && Height(r) <= Height(t) && 0 <= sp <= |st| && (sp == 0 <==> r == Leaf)
    && (sp > 0 ==>
          sp == |z| + 1 && s.Node? && Plug(z, s) == r && c == s.id && FirstPath(z)
          && st[0] == Root(r) && forall i :: 1 <= i < sp ==> st[i] == z[i - 1].id)
  }

  /** At a position of AVL_flush: the current node's child pointers, and room on the stack to go down. */
  lemma FlushLook<D>(nodes: seq<AvlNode<D>>, st: seq<int>, sp: int, c: int, z: seq<Frame<D>>, s: Tree<D>,
                     r: Tree<D>, t: Tree<D>, free: seq<nat>, free0: seq<nat>)
    requires Linked(nodes, r) && FlushPos(st, sp, c, z, s, r, t, free, free0) && sp > 0 && Height(t) <= |st|
    ensures 0 <= c < |nodes| && nodes[c].l == Root(s.left) && nodes[c].r == Root(s.right)
    ensures (s.left.Node? || s.right.Node?) ==> sp < |st|
  {
    LinkedPlug(nodes, z, s);
    HeightPlug(z, s);
  }

  /** AVL_flush's step down (avl.c:162-175): push the current node and go to its child. */
  lemma FlushDown<D>(st: seq<int>, sp: int, c: int, z: seq<Frame<D>>, s: Tree<D>, r: Tree<D>,
                     t: Tree<D>, free: seq<nat>, free0: seq<nat>, goLeft: bool)
    requires FlushPos(st, sp, c, z, s, r, t, free, free0) && 0 < sp < |st|
    requires Child(s, goLeft).Node? && (!goLeft ==> s.left == Leaf)
    ensures FlushPos(st[sp := c], sp + 1, Root(Child(s, goLeft)), z + [Step(s, goLeft)], Child(s, goLeft),
                     r, t, free, free0)
    ensures Height(Child(s, goLeft)) < Height(s)
  {
    var z' := z + [Step(s, goLeft)];
    PlugSnoc(z, Step(s, goLeft), Child(s, goLeft));
    StepPlug(s, goLeft);
    assert z'[..|z|] == z;
    assert forall i :: 0 <= i < |z| ==> z'[i] == z[i];
  }

  /** AVL_flush's pop, continued: the parent becomes the current node. */
  lemma FlushUp<D>(st: seq<int>, sp: int, c: int, z: seq<Frame<D>>, s: Tree<D>, r: Tree<D>,
                   t: Tree<D>, free: seq<nat>, free0: seq<nat>)
    requires FlushPos(st, sp, c, z, s, r, t, free, free0) && sp > 1 && Distinct(r)
    requires s.left == Leaf && s.right == Leaf
    ensures FlushPos(st, sp - 1, st[sp - 1], z[..|z| - 1], PlugOne(z[|z| - 1], Leaf), Plug(z, Leaf), t,
                     [c] + free, free0)
    ensures Size(Plug(z, Leaf)) < Size(r)
  {
    PruneLeaf(z, s);
    var z', f := z[..|z| - 1], z[|z| - 1];
    assert Plug(z, Leaf) == Plug(z', PlugOne(f, Leaf));
    assert FirstPath(z') && forall i :: 1 <= i < sp - 1 ==> st[i] == z'[i - 1].id by {
      assert forall i :: 0 <= i < |z'| ==> z'[i] == z[i];
    }
    assert FlushOrder(t) + free0 == FlushOrder(Plug(z, Leaf)) + ([c] + free) by {
      PushAssoc(FlushOrder(Plug(z, Leaf)), c, free);
    }
  }

  lemma PushAssoc(a: seq<nat>, c: nat, b: seq<nat>)
    ensures a + [c] + b == a + ([c] + b)
  {
  }

  /** AVL_flush's pop of the top node: the tree is gone and the flush is over. */
  lemma FlushDone<D>(st: seq<int>, c: int, z: seq<Frame<D>>, s: Tree<D>, r: Tree<D>,
                     t: Tree<D>, free: seq<nat>, free0: seq<nat>)
    requires FlushPos(st, 1, c, z, s, r, t, free, free0) && Distinct(r)
    requires s.left == Leaf && s.right == Leaf
    ensures Plug(z, Leaf) == Leaf
    ensures FlushPos(st, 0, st[0], z, s, Leaf, t, [c] + free, free0)
    ensures Size<D>(Leaf) < Size(r)
  {
  }
}
