/**
 * AVL_delete (avl.c:613-1174) on the node arena: the search that records
 * the path on the explicit stack, the splice, the release of the node and
 * the upward loop, each proved to build in the arena the tree that module
 * Deletion describes.
 */
module Unlinking {
  import opened Flags
  import opened Order
  import opened Trees
  import opened Arena
  import opened Deletion
  import opened Linking

  /** Entries 0 .. |z| - 1 of the stack hold the nodes of path z, the top first. */
  ghost predicate Stacked<D>(stack: seq<int>, z: seq<Frame<D>>) {
    |z| <= |stack| && forall j :: 0 <= j < |z| ==> stack[j] == z[j].id
  }

  /**
   * The state of the search loop of AVL_delete: s is the subtree at the
   * current node c, reached along z, whose nodes are on the stack; p is the
   * node above c.
   */
  ghost predicate KeySearch<D>(eval: (D, D) -> int, nodes: seq<AvlNode<D>>, t: Tree<D>, k: D, c: int, p: int,
                               sp: int, stack: seq<int>, z: seq<Frame<D>>, s: Tree<D>)
  {
    Plug(z, s) == t && SearchPath(eval, z, k) && Linked(nodes, s) && Ordered(eval, s) && c == Root(s)
    && (Absent(eval, Inorder(t), k) <==> Absent(eval, Inorder(s), k))
    && sp == |z| && p == (if |z| == 0 then NULL else z[|z| - 1].id) && Stacked(stack, z)
    && |z| + Height(s) <= Height(t)
  }

  /** Where the search ends when it finds k: the subtree s at node c below path z, p the node above c. */
  ghost predicate FoundAt<D>(eval: (D, D) -> int, t: Tree<D>, k: D, c: int, p: int, z: seq<Frame<D>>, s: Tree<D>) {
    Plug(z, s) == t && SearchPath(eval, z, k) && s.Node? && c == s.id && Same(eval, s.d, k)
    && p == (if |z| == 0 then NULL else z[|z| - 1].id)
  }

  /**
   * The search of AVL_delete (avl.c:629-663) in a non-empty tree: descend as
   * AVL_find does, pushing every node visited, until a payload compares the
   * same as k or the search falls off the tree.  The found node is stored at
   * stack[sp] but not counted.  The source also stops once MAX_DEPTH nodes
   * are stacked, which a tree at most MAX_DEPTH high never reaches.
   */
  method SearchKey<D(!new)>(eval: (D, D) -> int, nodes: seq<AvlNode<D>>, top: int, k: D, ghost t: Tree<D>,
                            stack: array<int>)
    returns (d: Option<D>, c: int, p: int, sp: int, ghost z: seq<Frame<D>>, ghost s: Tree<D>)
    requires IsComparator(eval) && Linked(nodes, t) && Ordered(eval, t) && t.Node? && top == Root(t)
    requires stack.Length == MAX_DEPTH && Height(t) <= MAX_DEPTH
    modifies stack
    ensures d.None? <==> Absent(eval, Inorder(t), k)
    ensures d.Some? ==> FoundAt(eval, t, k, c, p, z, s) && d == Some(s.d)
    ensures d.Some? ==> sp == |z| < MAX_DEPTH && Stacked(stack[..], z) && stack[sp] == c
  {
    c, p, sp := top, NULL, 0;
    d := None;
    z, s := [], t;
    while d == None && c != NULL && sp < MAX_DEPTH
      invariant d.None? ==> KeySearch(eval, nodes, t, k, c, p, sp, stack[..], z, s)
      invariant d.Some? ==> FoundAt(eval, t, k, c, p, z, s) && d == Some(s.d) && !Absent(eval, Inorder(t), k)
      invariant d.Some? ==> sp == |z| < MAX_DEPTH && Stacked(stack[..], z) && stack[sp] == c
      decreases if d.None? then Size(s) + 1 else 0
    {
      stack[sp] := c;
      assert Stacked(stack[..], z);
      var e := eval(nodes[c].d.value, k);
      if e == 0 {
        d := nodes[c].d;
        assert Inorder(s)[|Inorder(s.left)|] == s.d;
      } else {
        var goLeft := e < 0;
        SearchStep(eval, s, k);
        StepPlug(s, goLeft);
        PlugSnoc(z, Step(s, goLeft), Child(s, goLeft));
        assert Stacked(stack[..], z + [Step(s, goLeft)]);
        z, s := z + [Step(s, goLeft)], Child(s, goLeft);
        p, sp := c, sp + 1;
        c := if goLeft then nodes[c].l else nodes[c].r;
      }
    }
    if d.None? {
      assert s == Leaf;
    }
  }

  /**
   * The arena once the removed node's place has been taken: with an empty
   * path w the replacement q is the whole tree and h is -1; otherwise the
   * node above the hole has already had its balance moved away from the
   * side that shrank (Climb), and h says whether it shrank in turn.
   */
  ghost predicate Spliced<D>(nodes: seq<AvlNode<D>>, top: int, h: int, w: seq<Frame<D>>, q: Tree<D>) {
    (|w| == 0 ==> Linked(nodes, q) && top == Root(q) && h == -1)
    && (|w| > 0 ==> var up := Climb(w[|w| - 1], q, -1);
         Linked(nodes, Plug(w[..|w| - 1], up.t)) && top == Root(Plug(w[..|w| - 1], up.t)) && h == up.h)
  }

  /**
   * Carving x out from below y and climbing into y's last node keeps the
   * tree distinct, drops x's index and adds none.
   */
  lemma CutIds<D>(y: seq<Frame<D>>, x: Tree<D>)
    requires |y| > 0 && x.Node? && Distinct(Plug(y, x))
    ensures var q := if x.left.Leaf? then x.right else x.left;
      var u := Plug(y[..|y| - 1], Climb(y[|y| - 1], q, -1).t);
      Distinct(u) && x.id !in Ids(u) && Ids(u) <= Ids(Plug(y, x))
  {
    var q := if x.left.Leaf? then x.right else x.left;
    var f := y[|y| - 1];
    var up := Climb(f, q, -1).t;
    IdsPlug(y, q);
    IdsPlug(y, x);
    DistinctPlug(y, x);
    DistinctReplace(y, x, q);
    assert Plug(y, q) == Plug(y[..|y| - 1], PlugOne(f, q));
    DistinctPlug(y[..|y| - 1], PlugOne(f, q));
    DistinctPlug(y[..|y| - 1], up);
    IdsPlug(y[..|y| - 1], PlugOne(f, q));
    IdsPlug(y[..|y| - 1], up);
  }

  /**
   * Carving node c, which has at most one child s, out of the tree below
   * its parent p, the deepest node of y (avl.c:677-696, 768-781): p's
   * pointer to c now leads to s, p's balance moves away from that side, and
   * h becomes -1 exactly when that balanced p.
   */
  method CutAt<D>(nodes: seq<AvlNode<D>>, p: int, c: int, s: int, ghost y: seq<Frame<D>>, ghost x: Tree<D>)
    returns (nodes': seq<AvlNode<D>>, h: int)
    requires |y| > 0 && Linked(nodes, Plug(y, x)) && Distinct(Plug(y, x)) && x.Node? && c == x.id
    requires x.left.Leaf? || x.right.Leaf?
    requires s == Root(if x.left.Leaf? then x.right else x.left)
    requires p == y[|y| - 1].id && -1 <= y[|y| - 1].bal <= 1
    ensures var up := Climb(y[|y| - 1], if x.left.Leaf? then x.right else x.left, -1);
      Linked(nodes', Plug(y[..|y| - 1], up.t)) && h == up.h
    ensures Reshaped(nodes, nodes', {p})
  {
    ghost var f := y[|y| - 1];
    ghost var q := if x.left.Leaf? then x.right else x.left;
    ghost var b := if f.goLeft then f.bal + 1 else f.bal - 1;
    var nodes1, left := Bypass(nodes, p, c, s, y, x);
    if left {
      nodes' := nodes1[p := nodes1[p].(f := IncBal(nodes1[p].f))];
    } else {
      nodes' := nodes1[p := nodes1[p].(f := DecBal(nodes1[p].f))];
    }
    WriteNode(nodes1, y[..|y| - 1], PlugOne(f, q), nodes'[p], b);
    assert PlugOne(f, q).(bal := b) == PlugOne(f.(bal := b), q);
    h := 0;
    if GetBal(nodes'[p].f) == 0 {
      h := -1;
    }
  }

  /**
   * The pointer half of CutAt: the child slot of p that held c now holds
   * s, and left says which slot that was.
   */
  method Bypass<D>(nodes: seq<AvlNode<D>>, p: int, c: int, s: int, ghost y: seq<Frame<D>>, ghost x: Tree<D>)
    returns (nodes': seq<AvlNode<D>>, left: bool)
    requires |y| > 0 && Linked(nodes, Plug(y, x)) && Distinct(Plug(y, x)) && x.Node? && c == x.id
    requires x.left.Leaf? || x.right.Leaf?
    requires s == Root(if x.left.Leaf? then x.right else x.left)
    requires p == y[|y| - 1].id
    ensures var q := if x.left.Leaf? then x.right else x.left; var u := y[..|y| - 1]; var f := y[|y| - 1];
      left == f.goLeft && p < |nodes| && nodes' == nodes[p := WithChild(nodes[p], f.goLeft, s)]
      && Linked(nodes', Plug(u, PlugOne(f, q))) && Distinct(Plug(u, PlugOne(f, q)))
      && p == Root(PlugOne(f, q)) && Holds(nodes'[p], Root(PlugOne(f, q).left), f.d, f.bal, Root(PlugOne(f, q).right))
  {
    ghost var f := y[|y| - 1];
    ghost var q := if x.left.Leaf? then x.right else x.left;
    assert LinkedPath(nodes, y, c) && DistinctPath(y) && Linked(nodes, q) && Distinct(q)
      && PathIds(y) !! Ids(q) && c !in Ids(f.sib) && p in PathIds(y) && p !in Ids(q) by {
      LinkedPlug(nodes, y, x);
      DistinctPlug(y, x);
      PathIdsHas(y, |y| - 1);
    }
    nodes', left := SetChild(nodes, p, c, s, y);
    assert Agree(nodes, nodes', Ids(q)) by {
      ReshapedAgree(nodes, nodes', PathIds(y), Ids(q));
    }
    LinkedFrame(nodes, nodes', q);
    LinkedPlug(nodes', y, q);
    DistinctReplace(y, x, q);
    LinkedAt(nodes', y[..|y| - 1], PlugOne(f, q));
  }

  /**
   * The splice when node c, the subtree x below path z, has at most one
   * child (avl.c:670-705): the child takes c's place below the parent p,
   * or becomes the top when c was the top.
   */
  method SpliceOne<D>(nodes: seq<AvlNode<D>>, top: int, c: int, p: int, ghost z: seq<Frame<D>>, ghost x: Tree<D>)
    returns (nodes': seq<AvlNode<D>>, top': int, h: int)
    requires Linked(nodes, Plug(z, x)) && Distinct(Plug(z, x)) && x.Node? && c == x.id && top == Root(Plug(z, x))
    requires x.left.Leaf? || x.right.Leaf?
    requires p == (if |z| == 0 then NULL else z[|z| - 1].id)
    requires |z| > 0 ==> -1 <= z[|z| - 1].bal <= 1
    ensures Spliced(nodes', top', h, z, if x.left.Leaf? then x.right else x.left)
    ensures Reshaped(nodes, nodes', PathIds(z))
  {
    LinkedAt(nodes, z, x);
    var s := nodes[c].l;
    if s == NULL {
      s := nodes[c].r;
    }
    if p != NULL {
      nodes', h := CutAt(nodes, p, c, s, z, x);
      top' := top;
      PathIdsHas(z, |z| - 1);
      ghost var up := Climb(z[|z| - 1], if x.left.Leaf? then x.right else x.left, -1);
      RootPlug(z, x);
      if |z| > 1 {
        RootPlug(z[..|z| - 1], up.t);
      }
    } else {
      nodes', top', h := nodes, s, -1;
    }
  }

  /**
   * From r, the right child of the node being removed, down the left
   * spine to the in-order successor c (avl.c:728-741), pushing every node
   * passed; p ends as c's parent.  The depth guard of the source never
   * fires below MAX_DEPTH.
   */
  method LeftMost<D>(nodes: seq<AvlNode<D>>, stack: array<int>, sp0: int, c0: int, p0: int,
                     ghost u: seq<Frame<D>>, ghost r: Tree<D>)
    returns (c: int, p: int, sp: int)
    requires Linked(nodes, r) && r.Node? && c0 == r.id && |u| > 0 && sp0 == |u| && p0 == u[|u| - 1].id
    requires stack.Length == MAX_DEPTH && Stacked(stack[..], u) && |u| + Height(r) <= MAX_DEPTH
    modifies stack
    ensures c == MinSub(r).id && sp == |u| + |MinPath(r)| && Stacked(stack[..], u + MinPath(r))
    ensures p == (u + MinPath(r))[sp - 1].id
  {
    c, p, sp := c0, p0, sp0;
    ghost var mp: seq<Frame<D>> := [];
    ghost var cur := r;
    while nodes[c].l != NULL && sp < MAX_DEPTH
      invariant Linked(nodes, cur) && cur.Node? && c == cur.id
      invariant MinPath(r) == mp + MinPath(cur) && MinSub(r) == MinSub(cur)
      invariant sp == |u| + |mp| && Stacked(stack[..], u + mp) && p == (u + mp)[sp - 1].id
      invariant |u| + |mp| + Height(cur) <= MAX_DEPTH
      decreases Height(cur)
    {
      stack[sp] := c;
      assert Stacked(stack[..], u + mp + [Step(cur, true)]);
      p := c;
      c := nodes[c].l;
      sp := sp + 1;
      assert MinPath(cur) == [Step(cur, true)] + MinPath(cur.left);
      mp, cur := mp + [Step(cur, true)], cur.left;
    }
    assert mp + [] == mp;
  }

  /** The mirror image of LeftMost: down the right spine to the in-order predecessor (avl.c:742-755). */
  method RightMost<D>(nodes: seq<AvlNode<D>>, stack: array<int>, sp0: int, c0: int, p0: int,
                      ghost u: seq<Frame<D>>, ghost r: Tree<D>)
    returns (c: int, p: int, sp: int)
    requires Linked(nodes, r) && r.Node? && c0 == r.id && |u| > 0 && sp0 == |u| && p0 == u[|u| - 1].id
    requires stack.Length == MAX_DEPTH && Stacked(stack[..], u) && |u| + Height(r) <= MAX_DEPTH
    modifies stack
    ensures c == MaxSub(r).id && sp == |u| + |MaxPath(r)| && Stacked(stack[..], u + MaxPath(r))
    ensures p == (u + MaxPath(r))[sp - 1].id
  {
    c, p, sp := c0, p0, sp0;
    ghost var mp: seq<Frame<D>> := [];
    ghost var cur := r;
    while nodes[c].r != NULL && sp < MAX_DEPTH
      invariant Linked(nodes, cur) && cur.Node? && c == cur.id
      invariant MaxPath(r) == mp + MaxPath(cur) && MaxSub(r) == MaxSub(cur)
      invariant sp == |u| + |mp| && Stacked(stack[..], u + mp) && p == (u + mp)[sp - 1].id
      invariant |u| + |mp| + Height(cur) <= MAX_DEPTH
      decreases Height(cur)
    {
      stack[sp] := c;
      assert Stacked(stack[..], u + mp + [Step(cur, false)]);
      p := c;
      c := nodes[c].r;
      sp := sp + 1;
      assert MaxPath(cur) == [Step(cur, false)] + MaxPath(cur.right);
      mp, cur := mp + [Step(cur, false)], cur.right;
    }
    assert mp + [] == mp;
  }

  /** The path from a node with two children to its in-order neighbour, as Splice takes it. */
  lemma NeighbourPath<D>(z: seq<Frame<D>>, t: Tree<D>)
    requires t.Node? && t.left.Node? && t.right.Node?
    ensures var goLeft := t.bal <= 0; var mp := if goLeft then MaxPath(t.left) else MinPath(t.right);
      var y := [Step(t, goLeft)] + mp;
      z + [Step(t, goLeft)] + mp == z + y && Plug(mp, Removed(z, t)) == Child(t, goLeft)
      && Plug(z + y, Removed(z, t)) == Plug(z, t)
  {
    var goLeft := t.bal <= 0;
    var mp := if goLeft then MaxPath(t.left) else MinPath(t.right);
    if goLeft {
      MaxSplit(t.left);
    } else {
      MinSplit(t.right);
    }
    PlugThree(z, Step(t, goLeft), mp, Removed(z, t));
    StepPlug(t, goLeft);
  }

  /** The successor of node c, the left-most node of its right subtree (avl.c:728-741). */
  method Successor<D>(nodes: seq<AvlNode<D>>, stack: array<int>, sp: int, c: int,
                      ghost z: seq<Frame<D>>, ghost t: Tree<D>)
    returns (m: int, p: int, s: int, sp': int)
    requires Linked(nodes, t) && t.Node? && t.right.Node? && c == t.id
    requires stack.Length == MAX_DEPTH && sp == |z| < MAX_DEPTH && Stacked(stack[..], z) && stack[sp] == c
    requires |z| + Height(t) <= MAX_DEPTH
    modifies stack
    ensures var u := z + [Step(t, false)] + MinPath(t.right);
      m == MinSub(t.right).id && s == Root(MinSub(t.right).right)
      && sp' == |u| && Stacked(stack[..], u) && p == u[|u| - 1].id
  {
    assert Stacked(stack[..], z + [Step(t, false)]);
    m, p, sp' := LeftMost(nodes, stack, sp + 1, nodes[c].r, c, z + [Step(t, false)], t.right);
    MinSplit(t.right);
    LinkedPlug(nodes, MinPath(t.right), MinSub(t.right));
    s := nodes[m].r;
  }

  /** The predecessor of node c, the right-most node of its left subtree (avl.c:742-755). */
  method Predecessor<D>(nodes: seq<AvlNode<D>>, stack: array<int>, sp: int, c: int,
                        ghost z: seq<Frame<D>>, ghost t: Tree<D>)
    returns (m: int, p: int, s: int, sp': int)
    requires Linked(nodes, t) && t.Node? && t.left.Node? && c == t.id
    requires stack.Length == MAX_DEPTH && sp == |z| < MAX_DEPTH && Stacked(stack[..], z) && stack[sp] == c
    requires |z| + Height(t) <= MAX_DEPTH
    modifies stack
    ensures var u := z + [Step(t, true)] + MaxPath(t.left);
      m == MaxSub(t.left).id && s == Root(MaxSub(t.left).left)
      && sp' == |u| && Stacked(stack[..], u) && p == u[|u| - 1].id
  {
    assert Stacked(stack[..], z + [Step(t, true)]);
    m, p, sp' := RightMost(nodes, stack, sp + 1, nodes[c].l, c, z + [Step(t, true)], t.left);
    MaxSplit(t.left);
    LinkedPlug(nodes, MaxPath(t.left), MaxSub(t.left));
    s := nodes[m].l;
  }

  /**
   * The in-order neighbour of node c, the subtree t below path z with two
   * children (avl.c:706-755): the successor when t leans right, the
   * predecessor otherwise.  y is the path from t down to it, m the
   * neighbour, p its parent and s its one possible child.
   */
  method Neighbour<D>(nodes: seq<AvlNode<D>>, stack: array<int>, sp: int, c: int,
                      ghost z: seq<Frame<D>>, ghost t: Tree<D>)
    returns (m: int, p: int, s: int, sp': int, ghost y: seq<Frame<D>>)
    requires Linked(nodes, Plug(z, t)) && t.Node? && t.left.Node? && t.right.Node? && c == t.id
    requires stack.Length == MAX_DEPTH && sp == |z| < MAX_DEPTH && Stacked(stack[..], z) && stack[sp] == c
    requires Height(Plug(z, t)) <= MAX_DEPTH
    modifies stack
    ensures var x := Removed(z, t); var goLeft := t.bal <= 0;
      y == [Step(t, goLeft)] + (if goLeft then MaxPath(t.left) else MinPath(t.right))
      && Plug(z + y, x) == Plug(z, t) && m == x.id && p == (z + y)[|z + y| - 1].id
      && s == Root(if goLeft then x.left else x.right)
      && sp' == |z + y| && Stacked(stack[..], z + y)
  {
    assert Linked(nodes, t) && |z| + Height(t) <= MAX_DEPTH && c < |nodes| && GetBal(nodes[c].f) == t.bal by {
      LinkedAt(nodes, z, t);
      HeightPlug(z, t);
    }
    NeighbourPath(z, t);
    if GetBal(nodes[c].f) > 0 {
      m, p, s, sp' := Successor(nodes, stack, sp, c, z, t);
      y := [Step(t, false)] + MinPath(t.right);
    } else {
      m, p, s, sp' := Predecessor(nodes, stack, sp, c, z, t);
      y := [Step(t, true)] + MaxPath(t.left);
    }
  }

  /** Node m copies the pointers and the balance of sc, the top of y (avl.c:785-787). */
  method Transplant<D>(nodes: seq<AvlNode<D>>, sc: int, m: int, ghost md: D, ghost y: Tree<D>)
    returns (nodes': seq<AvlNode<D>>)
    requires Linked(nodes, y) && Distinct(y) && y.Node? && sc == y.id && IsBal(y.bal)
    requires 0 <= m < |nodes| && m !in Ids(y) && nodes[m].d == Some(md)
    ensures Linked(nodes', y.(id := m, d := md)) && Distinct(y.(id := m, d := md))
    ensures Reshaped(nodes, nodes', {m})
  {
    nodes' := nodes[m := nodes[m].(l := nodes[sc].l)];
    nodes' := nodes'[m := nodes'[m].(r := nodes'[sc].r)];
    nodes' := nodes'[m := nodes'[m].(f := SetBal(nodes'[m].f, GetBal(nodes'[sc].f)))];
    ReshapedAgree(nodes, nodes', {m}, Ids(y.left));
    ReshapedAgree(nodes, nodes', {m}, Ids(y.right));
    LinkedFrame(nodes, nodes', y.left);
    LinkedFrame(nodes, nodes', y.right);
  }

  /**
   * The parent spp of the old top sc of subtree y, or the top of the tree
   * when sc was the top, now points to m, the top of y' (avl.c:789-794).
   */
  method Repoint<D>(nodes: seq<AvlNode<D>>, top: int, spp: int, sc: int, m: int,
                    ghost z: seq<Frame<D>>, ghost y: Tree<D>, ghost y': Tree<D>)
    returns (nodes': seq<AvlNode<D>>, top': int)
    requires LinkedPath(nodes, z, sc) && DistinctPath(z) && Linked(nodes, y') && y.Node? && y'.Node?
    requires sc == y.id && m == y'.id && PathIds(z) !! Ids(y) && PathIds(z) !! Ids(y')
    requires top == Root(Plug(z, y)) && spp == (if |z| == 0 then NULL else z[|z| - 1].id)
    ensures Linked(nodes', Plug(z, y')) && top' == Root(Plug(z, y'))
    ensures Reshaped(nodes, nodes', PathIds(z))
  {
    if spp == NULL {
      nodes', top' := nodes, m;
    } else {
      assert sc !in Ids(z[|z| - 1].sib) by {
        PathIdsHas(z, |z| - 1);
      }
      var left;
      nodes', left := SetChild(nodes, spp, sc, m, z);
      ReshapedAgree(nodes, nodes', PathIds(z), Ids(y'));
      LinkedFrame(nodes, nodes', y');
      RootPlug(z, y);
      RootPlug(z, y');
      top' := top;
    }
    LinkedPlug(nodes', z, y');
  }

  /**
   * The neighbour m takes the place of the removed node sc, the top of
   * subtree y below path z (avl.c:785-796): m copies sc's pointers and
   * balance, and sc's parent spp, or the top when sc was the top, now
   * points to m.
   */
  method MoveUp<D>(nodes: seq<AvlNode<D>>, top: int, sc: int, spp: int, m: int, ghost md: D,
                   ghost z: seq<Frame<D>>, ghost y: Tree<D>)
    returns (nodes': seq<AvlNode<D>>, top': int)
    requires Linked(nodes, Plug(z, y)) && Distinct(Plug(z, y)) && y.Node? && sc == y.id && top == Root(Plug(z, y))
    requires spp == (if |z| == 0 then NULL else z[|z| - 1].id)
    requires 0 <= m < |nodes| && m !in Ids(Plug(z, y)) && nodes[m].d == Some(md) && IsBal(y.bal)
    ensures Linked(nodes', Plug(z, y.(id := m, d := md))) && Distinct(Plug(z, y.(id := m, d := md)))
    ensures top' == Root(Plug(z, y.(id := m, d := md)))
    ensures Reshaped(nodes, nodes', PathIds(z) + {m})
  {
    LinkedAt(nodes, z, y);
    DistinctPlug(z, y);
    IdsPlug(z, y);
    ghost var y' := y.(id := m, d := md);
    var a := Transplant(nodes, sc, m, md, y);
    ReshapedAgree(nodes, a, {m}, PathIds(z));
    LinkedPathFrame(nodes, a, z, sc);
    nodes', top' := Repoint(a, top, spp, sc, m, z, y, y');
    DistinctReplace(z, y, y');
  }

  /**
   * Subtree y after the neighbour below it was carved out with child q and
   * the parent of the gap climbed: the part of the tree that the move of
   * the neighbour rewrites.
   */
  ghost function Lifted<D>(y: seq<Frame<D>>, q: Tree<D>): (r: Tree<D>)
    requires |y| > 0
    ensures r.Node? && r.id == y[0].id
  {
    var up := Climb(y[|y| - 1], q, -1).t;
    if |y| > 1 then
      RootPlug(y[..|y| - 1], up);
      Plug(y[..|y| - 1], up)
    else
      Plug(y[..|y| - 1], up)
  }

  /**
   * Relabelling the top of the lifted subtree with the neighbour x is the
   * tree that Splice describes, and climbing out of the gap reports the
   * same height change.
   */
  lemma MovedPlug<D>(z: seq<Frame<D>>, t: Tree<D>, goLeft: bool, mp: seq<Frame<D>>, x: Tree<D>, q: Tree<D>)
    requires t.Node? && x.Node?
    ensures var y := [Step(t, goLeft)] + mp; var w := z + [MovedFrame(t, x, goLeft)] + mp;
      var Y := Lifted(y, q);
      Y.Node? && Y.id == t.id && (|mp| > 0 ==> Y.bal == t.bal)
      && Plug(z + y[..|y| - 1], Climb(y[|y| - 1], q, -1).t) == Plug(z, Y)
      && Plug(w[..|w| - 1], Climb(w[|w| - 1], q, -1).t) == Plug(z, Y.(id := x.id, d := x.d))
      && Climb(w[|w| - 1], q, -1).h == Climb(y[|y| - 1], q, -1).h
  {
    var y := [Step(t, goLeft)] + mp;
    var w := z + [MovedFrame(t, x, goLeft)] + mp;
    var f, g := Step(t, goLeft), MovedFrame(t, x, goLeft);
    if |mp| == 0 {
      assert y == [f] && y[..0] == [] && z + y[..0] == z;
      assert w[..|w| - 1] == z && w[|w| - 1] == g;
    } else {
      var k := |mp|;
      var up := Climb(mp[k - 1], q, -1);
      assert y[..|y| - 1] == [f] + mp[..k - 1] && y[|y| - 1] == mp[k - 1];
      assert w[..|w| - 1] == z + [g] + mp[..k - 1] && w[|w| - 1] == mp[k - 1];
      PlugCons(f, mp[..k - 1], up.t);
      PlugThree(z, g, mp[..k - 1], up.t);
    }
    PlugConcat(z, y[..|y| - 1], Climb(y[|y| - 1], q, -1).t);
  }

  /** The lifted subtree keeps the top node of y, and the climb changed its balance only when y is that node alone. */
  lemma LiftedTop<D>(y: seq<Frame<D>>, q: Tree<D>)
    requires |y| > 0
    ensures Lifted(y, q).Node? && Lifted(y, q).id == y[0].id
    ensures |y| > 1 ==> Lifted(y, q).bal == y[0].bal
    ensures |y| == 1 ==> Lifted(y, q).bal == y[0].bal + 1 || Lifted(y, q).bal == y[0].bal - 1 || Lifted(y, q).bal == y[0].bal
  {
    var up := Climb(y[|y| - 1], q, -1);
    if |y| > 1 {
      PlugSplit(y[..|y| - 1], 0, up.t);
      assert y[..|y| - 1][..0] == [];
    }
  }

  /** The deepest frame of a path through an AVL tree carries a balance within -1..1. */
  lemma LastBalanced<D>(u: seq<Frame<D>>, f: Frame<D>, x: Tree<D>)
    requires AVL(Plug(u + [f], x))
    ensures -1 <= f.bal <= 1
  {
    PlugSnoc(u, f, x);
    AvlSub(u, PlugOne(f, x));
  }

  /**
   * The balances the splice of avl.c:706-801 meets at a node t with two
   * children: the neighbour's parent is within -1..1, and the lifted
   * subtree's top keeps a balance the flag field can store.
   */
  lemma TwoChildBalance<D>(z: seq<Frame<D>>, t: Tree<D>)
    requires t.Node? && t.left.Node? && t.right.Node? && AVL(Plug(z, t))
    ensures var goLeft := t.bal <= 0; var x := Removed(z, t);
      var y := [Step(t, goLeft)] + (if goLeft then MaxPath(t.left) else MinPath(t.right));
      var q := if x.left.Leaf? then x.right else x.left;
      -1 <= y[|y| - 1].bal <= 1 && Lifted(y, q).Node? && IsBal(Lifted(y, q).bal)
  {
    var goLeft := t.bal <= 0;
    var x := Removed(z, t);
    var y := [Step(t, goLeft)] + (if goLeft then MaxPath(t.left) else MinPath(t.right));
    var q := if x.left.Leaf? then x.right else x.left;
    assert -1 <= y[|y| - 1].bal <= 1 by {
      NeighbourPath(z, t);
      LastOf(z, y);
      LastBalanced(z + y[..|y| - 1], y[|y| - 1], x);
    }
    assert -1 <= y[0].bal <= 1 by {
      AvlSub(z, t);
    }
    LiftedTop(y, q);
  }

  /** At a node with two children, Splice names the path to the neighbour and the neighbour's child. */
  lemma TwoChildSplice<D>(z: seq<Frame<D>>, t: Tree<D>)
    requires t.Node? && t.left.Node? && t.right.Node?
    ensures var goLeft := t.bal <= 0; var x := Removed(z, t);
      Splice(z, t) == (z + [MovedFrame(t, x, goLeft)] + (if goLeft then MaxPath(t.left) else MinPath(t.right)),
                       if x.left.Leaf? then x.right else x.left)
  {
    if t.bal <= 0 {
      MaxSplit(t.left);
    } else {
      MinSplit(t.right);
    }
  }

  /**
   * Node m, the subtree x below z + y with at most one child, is carved out
   * of the tree and takes the place of sc, the top of y (avl.c:768-794).
   */
  method Detach<D>(nodes: seq<AvlNode<D>>, top: int, sc: int, spp: int, m: int, pm: int, s: int,
                   ghost z: seq<Frame<D>>, ghost y: seq<Frame<D>>, ghost x: Tree<D>)
    returns (nodes': seq<AvlNode<D>>, top': int, h: int)
    requires |y| > 0 && Linked(nodes, Plug(z + y, x)) && Distinct(Plug(z + y, x)) && top == Root(Plug(z + y, x))
    requires x.Node? && m == x.id && (x.left.Leaf? || x.right.Leaf?)
    requires s == Root(if x.left.Leaf? then x.right else x.left)
    requires pm == y[|y| - 1].id && -1 <= y[|y| - 1].bal <= 1 && sc == y[0].id
    requires spp == (if |z| == 0 then NULL else z[|z| - 1].id)
    requires Lifted(y, if x.left.Leaf? then x.right else x.left).Node?
    requires IsBal(Lifted(y, if x.left.Leaf? then x.right else x.left).bal)
    ensures var q := if x.left.Leaf? then x.right else x.left; var moved := Lifted(y, q).(id := m, d := x.d);
      Linked(nodes', Plug(z, moved)) && top' == Root(Plug(z, moved)) && h == Climb(y[|y| - 1], q, -1).h
    ensures Reshaped(nodes, nodes', Ids(Plug(z + y, x)))
  {
    ghost var q := if x.left.Leaf? then x.right else x.left;
    ghost var lifted := Lifted(y, q);
    assert (z + y)[..|z + y| - 1] == z + y[..|y| - 1] && (z + y)[|z + y| - 1] == y[|y| - 1];
    var nodes1;
    nodes1, h := CutAt(nodes, pm, m, s, z + y, x);
    assert Linked(nodes1, Plug(z, lifted)) && Distinct(Plug(z, lifted)) && m !in Ids(Plug(z, lifted)) by {
      CutIds(z + y, x);
      PlugConcat(z, y[..|y| - 1], Climb(y[|y| - 1], q, -1).t);
    }
    assert pm in PathIds(z + y) && m !in PathIds(z + y) && nodes[m].d == Some(x.d) by {
      LinkedAt(nodes, z + y, x);
      DistinctPlug(z + y, x);
      PathIdsHas(z + y, |z + y| - 1);
    }
    assert top == Root(Plug(z, lifted)) && sc == lifted.id by {
      LiftedTop(y, q);
      RootPlug(z + y, x);
      if |z| > 0 {
        RootPlug(z, lifted);
      }
    }
    nodes', top' := MoveUp(nodes1, top, sc, spp, m, x.d, z, lifted);
    assert {pm} + PathIds(z) + {m} <= Ids(Plug(z + y, x)) by {
      IdsPlug(z + y, x);
      PathIdsConcat(z, y);
    }
    ReshapedWiden(nodes, nodes1, {pm}, Ids(Plug(z + y, x)));
    ReshapedWiden(nodes1, nodes', PathIds(z) + {m}, Ids(Plug(z + y, x)));
    ReshapedTrans(nodes, nodes1, nodes', Ids(Plug(z + y, x)), Ids(Plug(z + y, x)));
  }

  /** Overwriting the stack slot of frame f with the index of g. */
  lemma StackMoved<D>(stack: seq<int>, z: seq<Frame<D>>, f: Frame<D>, g: Frame<D>, mp: seq<Frame<D>>)
    requires Stacked(stack, z + [f] + mp)
    ensures Stacked(stack[|z| := g.id], z + [g] + mp)
  {
    forall j | 0 <= j < |z + [g] + mp|
      ensures stack[|z| := g.id][j] == (z + [g] + mp)[j].id
    {
      if j < |z| {
        assert (z + [g] + mp)[j] == z[j] == (z + [f] + mp)[j];
      } else if j > |z| {
        assert (z + [g] + mp)[j] == mp[j - |z| - 1] == (z + [f] + mp)[j];
      }
    }
  }

  /**
   * The state Detach leaves is the one Splice describes: the path down to
   * the neighbour's old place, with the neighbour relabelling the top.
   */
  lemma SplicedMoved<D>(nodes: seq<AvlNode<D>>, top: int, h: int, z: seq<Frame<D>>, t: Tree<D>)
    requires t.Node? && t.left.Node? && t.right.Node?
    requires var goLeft := t.bal <= 0; var x := Removed(z, t); var q := if x.left.Leaf? then x.right else x.left;
      var y := [Step(t, goLeft)] + (if goLeft then MaxPath(t.left) else MinPath(t.right));
      var moved := Lifted(y, q).(id := x.id, d := x.d);
      Linked(nodes, Plug(z, moved)) && top == Root(Plug(z, moved)) && h == Climb(y[|y| - 1], q, -1).h
    ensures Spliced(nodes, top, h, Splice(z, t).0, Splice(z, t).1)
  {
    var goLeft := t.bal <= 0;
    var x := Removed(z, t);
    var mp := if goLeft then MaxPath(t.left) else MinPath(t.right);
    TwoChildSplice(z, t);
    MovedPlug(z, t, goLeft, mp, x, if x.left.Leaf? then x.right else x.left);
  }

  /** The stack after the neighbour's index replaced the removed node's holds Splice's path. */
  lemma StackedMoved<D>(stack: seq<int>, z: seq<Frame<D>>, t: Tree<D>)
    requires t.Node? && t.left.Node? && t.right.Node?
    requires Stacked(stack, z + ([Step(t, t.bal <= 0)] + (if t.bal <= 0 then MaxPath(t.left) else MinPath(t.right))))
    ensures Stacked(stack[|z| := Removed(z, t).id], Splice(z, t).0)
    ensures |Splice(z, t).0| == |z| + 1 + |if t.bal <= 0 then MaxPath(t.left) else MinPath(t.right)|
  {
    var goLeft := t.bal <= 0;
    var x := Removed(z, t);
    var mp := if goLeft then MaxPath(t.left) else MinPath(t.right);
    assert z + ([Step(t, goLeft)] + mp) == z + [Step(t, goLeft)] + mp;
    TwoChildSplice(z, t);
    StackMoved(stack, z, Step(t, goLeft), MovedFrame(t, x, goLeft), mp);
  }

  /**
   * The splice when node c, the subtree t below path z, has two children
   * (avl.c:706-801): its in-order neighbour m is carved out of the tree and
   * takes c's place, its stack slot included.
   */
  method SpliceTwo<D>(nodes: seq<AvlNode<D>>, top: int, stack: array<int>, sp: int, c: int, p: int,
                      ghost z: seq<Frame<D>>, ghost t: Tree<D>)
    returns (nodes': seq<AvlNode<D>>, top': int, h: int, sp': int)
    requires Linked(nodes, Plug(z, t)) && Distinct(Plug(z, t)) && AVL(Plug(z, t)) && top == Root(Plug(z, t))
    requires t.Node? && t.left.Node? && t.right.Node? && c == t.id
    requires p == (if |z| == 0 then NULL else z[|z| - 1].id)
    requires stack.Length == MAX_DEPTH && sp == |z| < MAX_DEPTH && Stacked(stack[..], z) && stack[sp] == c
    requires Height(Plug(z, t)) <= MAX_DEPTH
    modifies stack
    ensures Spliced(nodes', top', h, Splice(z, t).0, Splice(z, t).1)
    ensures sp' == |Splice(z, t).0| && Stacked(stack[..], Splice(z, t).0)
    ensures Reshaped(nodes, nodes', Ids(Plug(z, t)))
  {
    var m, pm, s;
    ghost var y;
    m, pm, s, sp', y := Neighbour(nodes, stack, sp, c, z, t);
    nodes', top', h := Promote(nodes, top, stack, sp, c, p, m, pm, s, z, t, y);
  }

  /**
   * The second half of SpliceTwo (avl.c:768-800): with the path y to the
   * neighbour m on the stack, m is carved out and takes c's place, its
   * stack slot included.
   */
  method Promote<D>(nodes: seq<AvlNode<D>>, top: int, stack: array<int>, sp: int, c: int, p: int, m: int, pm: int,
                    s: int, ghost z: seq<Frame<D>>, ghost t: Tree<D>, ghost y: seq<Frame<D>>)
    returns (nodes': seq<AvlNode<D>>, top': int, h: int)
    requires Linked(nodes, Plug(z, t)) && Distinct(Plug(z, t)) && AVL(Plug(z, t)) && top == Root(Plug(z, t))
    requires t.Node? && t.left.Node? && t.right.Node? && c == t.id
    requires p == (if |z| == 0 then NULL else z[|z| - 1].id)
    requires stack.Length == MAX_DEPTH && sp == |z|
    requires var x := Removed(z, t); var goLeft := t.bal <= 0;
      y == [Step(t, goLeft)] + (if goLeft then MaxPath(t.left) else MinPath(t.right))
      && Plug(z + y, x) == Plug(z, t) && m == x.id && pm == (z + y)[|z + y| - 1].id
      && s == Root(if goLeft then x.left else x.right)
      && Stacked(stack[..], z + y)
    modifies stack
    ensures Spliced(nodes', top', h, Splice(z, t).0, Splice(z, t).1)
    ensures Stacked(stack[..], Splice(z, t).0)
    ensures Reshaped(nodes, nodes', Ids(Plug(z, t)))
  {
    ghost var x := Removed(z, t);
    ghost var q := if x.left.Leaf? then x.right else x.left;
    assert pm == y[|y| - 1].id && c == y[0].id && top == Root(Plug(z + y, x)) && s == Root(q);
    assert -1 <= y[|y| - 1].bal <= 1 && Lifted(y, q).Node? && IsBal(Lifted(y, q).bal) by {
      TwoChildBalance(z, t);
    }
    nodes', top', h := Detach(nodes, top, c, p, m, pm, s, z, y, x);
    SplicedMoved(nodes', top', h, z, t);
    StackedMoved(stack[..], z, t);
    stack[sp] := m;
  }
}
