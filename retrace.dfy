/**
 * The upward loop of AVL_delete (avl.c:883-1170) on the node arena: the
 * rotations of scenarios 1 and 2 in the order the deletion code writes
 * them, the balance update of the parent, and the loop over the stack,
 * proved to build the tree that Deletion.KnuthDelete describes.
 */
module Retrace {
  import opened Flags
  import opened Trees
  import opened Arena
  import opened Deletion
  import opened Linking
  import opened Unlinking

  // ------------------------------------------------------------------
  // Scenario 1: the single rotation
  // ------------------------------------------------------------------

  /**
   * The tree after the pointer writes of scenario 1 (avl.c:917-920,
   * 1036-1039): a's child b on the heavy side dir comes up, a goes down on
   * the other side and takes over b's inner subtree; balances as they were.
   */
  function Turned<D>(x: Tree<D>, dir: int): (r: Tree<D>)
    requires dir == 1 || dir == -1
    requires x.Node? && Child(x, dir == -1).Node?
  {
    if dir == 1 then
      var b := x.right;
      Node(Node(x.left, x.id, x.d, x.bal, b.left), b.id, b.d, b.bal, b.right)
    else
      var b := x.left;
      Node(b.left, b.id, b.d, b.bal, Node(b.right, x.id, x.d, x.bal, x.right))
  }

  /**
   * The balances scenario 1 then sets (avl.c:936-955, 1055-1074): when b
   * was balanced, a keeps a lean of dir and b one of -dir; otherwise both
   * end balanced.
   */
  function Tilted<D>(y: Tree<D>, dir: int): (r: Tree<D>)
    requires dir == 1 || dir == -1
    requires y.Node? && Child(y, dir == 1).Node?
  {
    var e := if y.bal == 0 then dir else 0;
    if dir == 1 then Node(y.left.(bal := e), y.id, y.d, -e, y.right)
    else Node(y.left, y.id, y.d, -e, y.right.(bal := e))
  }

  /** The single rotation keeps the payloads, their order and the nodes. */
  lemma TurnedSame<D>(x: Tree<D>, dir: int)
    requires dir == 1 || dir == -1
    requires x.Node? && Child(x, dir == -1).Node? && Distinct(x)
    ensures Distinct(Turned(x, dir)) && Ids(Turned(x, dir)) == Ids(x) && Turned(x, dir).id == Child(x, dir == -1).id
  {
    var b := Child(x, dir == -1);
    assert Distinct(b);
    if dir == 1 {
      assert Ids(x) == Ids(x.left) + {x.id} + Ids(b.left) + {b.id} + Ids(b.right);
    } else {
      assert Ids(x) == Ids(b.left) + {b.id} + Ids(b.right) + {x.id} + Ids(x.right);
    }
  }

  /** Node t leans against direction dir: scenario 2 when t is the child b. */
  predicate Against<D>(t: Tree<D>, dir: int)
    requires t.Node?
  {
    if dir == 1 then t.bal < 0 else t.bal > 0
  }

  /**
   * At a node leaning 2 * dir the child b on that side exists, and so does
   * b's inner child, with its balance in range, when b leans against dir
   * (avl.c:901-913, 1020-1032).
   */
  lemma HeavyShape<D>(x: Tree<D>, dir: int)
    requires dir == 1 || dir == -1
    requires NearAVL(x) && x.bal == 2 * dir
    ensures Child(x, dir == -1).Node? && -1 <= Child(x, dir == -1).bal <= 1
    ensures Against(Child(x, dir == -1), dir) ==>
      Child(Child(x, dir == -1), dir == 1).Node? && -1 <= Child(Child(x, dir == -1), dir == 1).bal <= 1
  {
    SettleShapes(x);
    var b := Child(x, dir == -1);
    assert AVL(b);
    if Against(b, dir) {
      assert AVL(Child(b, dir == 1));
    }
  }

  /** Scenario 1 of the loop is Settle's single rotation. */
  lemma TiltedIsSettle<D>(x: Tree<D>, h: int, dir: int)
    requires dir == 1 || dir == -1
    requires x.Node? && x.bal == 2 * dir && Child(x, dir == -1).Node? && !Against(Child(x, dir == -1), dir)
    ensures Settle(x, h) == Carry(Tilted(Turned(x, dir), dir), if Child(x, dir == -1).bal == 0 then 0 else -1)
  {
  }

  /**
   * The pointer writes of scenario 1 (avl.c:910-920 for a balance of +2,
   * 1029-1039 for -2): a's outer child s1 stays, a takes b's inner subtree
   * s2, and b takes a and keeps its outer child c.
   */
  method Turn<D>(nodes: seq<AvlNode<D>>, a: int, b: int, dir: int, ghost x: Tree<D>)
    returns (nodes': seq<AvlNode<D>>)
    requires dir == 1 || dir == -1
    requires Linked(nodes, x) && Distinct(x) && x.Node? && a == x.id
    requires Child(x, dir == -1).Node? && b == Child(x, dir == -1).id
    ensures Linked(nodes', Turned(x, dir))
    ensures Reshaped(nodes, nodes', {a, b}) && {a, b} <= Ids(x)
  {
    ghost var s := Child(x, dir == -1);
    assert Linked(nodes, s) && Distinct(s);
    assert a != b && a < |nodes| && b < |nodes|;
    if dir == 1 {
      var s1 := nodes[a].l;
      var s2 := nodes[b].l;
      var c := nodes[b].r;
      nodes' := nodes[a := nodes[a].(l := s1)];
      nodes' := nodes'[a := nodes'[a].(r := s2)];
      nodes' := nodes'[b := nodes'[b].(l := a)];
      nodes' := nodes'[b := nodes'[b].(r := c)];
    } else {
      var s1 := nodes[a].r;
      var s2 := nodes[b].r;
      var c := nodes[b].l;
      nodes' := nodes[a := nodes[a].(r := s1)];
      nodes' := nodes'[a := nodes'[a].(l := s2)];
      nodes' := nodes'[b := nodes'[b].(r := a)];
      nodes' := nodes'[b := nodes'[b].(l := c)];
    }
    assert Reshaped(nodes, nodes', {a, b});
    ReshapedAgree(nodes, nodes', {a, b}, Ids(s.left));
    ReshapedAgree(nodes, nodes', {a, b}, Ids(s.right));
    ReshapedAgree(nodes, nodes', {a, b}, Ids(Child(x, dir == 1)));
    LinkedFrame(nodes, nodes', s.left);
    LinkedFrame(nodes, nodes', s.right);
    LinkedFrame(nodes, nodes', Child(x, dir == 1));
  }

  /**
   * The balance writes of scenario 1 on the turned tree y, b on top and a
   * below it on the side away from dir (avl.c:936-955, 1055-1074); h tells
   * whether the subtree lost height.
   */
  method TurnBalances<D>(nodes: seq<AvlNode<D>>, a: int, b: int, dir: int, ghost y: Tree<D>)
    returns (nodes': seq<AvlNode<D>>, h: int)
    requires dir == 1 || dir == -1
    requires Linked(nodes, y) && Distinct(y) && y.Node? && b == y.id
    requires Child(y, dir == 1).Node? && a == Child(y, dir == 1).id
    ensures Linked(nodes', Tilted(y, dir)) && h == (if y.bal == 0 then 0 else -1)
    ensures Reshaped(nodes, nodes', {a, b})
  {
    assert a != b && a < |nodes| && b < |nodes| && GetBal(nodes[b].f) == y.bal by {
      assert Linked(nodes, Child(y, dir == 1)) && Distinct(Child(y, dir == 1));
    }
    if GetBal(nodes[b].f) == 0 {
      nodes' := nodes[a := nodes[a].(f := SetBal(nodes[a].f, dir))];
      nodes' := nodes'[b := nodes'[b].(f := SetBal(nodes'[b].f, -dir))];
      h := 0;
    } else {
      nodes' := nodes[a := nodes[a].(f := SetBal(nodes[a].f, 0))];
      nodes' := nodes'[b := nodes'[b].(f := SetBal(nodes'[b].f, 0))];
      h := -1;
    }
    TiltLinked(nodes, nodes', a, b, dir, y);
  }

  /** The two balance writes of TurnBalances leave every pointer in place. */
  lemma TiltLinked<D>(nodes: seq<AvlNode<D>>, nodes': seq<AvlNode<D>>, a: int, b: int, dir: int, y: Tree<D>)
    requires dir == 1 || dir == -1
    requires Linked(nodes, y) && Distinct(y) && y.Node? && b == y.id
    requires Child(y, dir == 1).Node? && a == Child(y, dir == 1).id && a != b
    requires a < |nodes| && b < |nodes|
    requires var e := if y.bal == 0 then dir else 0;
      nodes' == nodes[a := nodes[a].(f := SetBal(nodes[a].f, e))][b := nodes[b].(f := SetBal(nodes[b].f, -e))]
    ensures Linked(nodes', Tilted(y, dir)) && Reshaped(nodes, nodes', {a, b})
  {
    var s := Child(y, dir == 1);
    assert Reshaped(nodes, nodes', {a, b});
    ReshapedAgree(nodes, nodes', {a, b}, Ids(s.left));
    ReshapedAgree(nodes, nodes', {a, b}, Ids(s.right));
    ReshapedAgree(nodes, nodes', {a, b}, Ids(Child(y, dir == -1)));
    LinkedFrame(nodes, nodes', s.left);
    LinkedFrame(nodes, nodes', s.right);
    LinkedFrame(nodes, nodes', Child(y, dir == -1));
  }

  // ------------------------------------------------------------------
  // Scenario 2: the double rotation
  // ------------------------------------------------------------------

  /**
   * The pointer writes of scenario 2 (avl.c:963-972 for +2, 1082-1091 for
   * -2): b's inner child c comes up with a and b as its children; a and b
   * take over c's subtrees s2 and s3.  The result is the tree of the
   * insertion's double rotation before its balance writes.
   */
  method Raise<D>(nodes: seq<AvlNode<D>>, a: int, b: int, dir: int, ghost x: Tree<D>)
    returns (nodes': seq<AvlNode<D>>, c: int)
    requires dir == 1 || dir == -1
    requires Linked(nodes, x) && Distinct(x) && x.Node? && a == x.id
    requires Child(x, dir == -1).Node? && b == Child(x, dir == -1).id
    requires Child(Child(x, dir == -1), dir == 1).Node?
    ensures Linked(nodes', Pivoted(x, dir)) && c == Root(Pivoted(x, dir))
    ensures Reshaped(nodes, nodes', {a, b, c}) && {a, b, c} <= Ids(x)
  {
    if dir == 1 {
      nodes', c := RaiseRight(nodes, a, b, x);
    } else {
      nodes', c := RaiseLeft(nodes, a, b, x);
    }
  }

  /** Scenario 2 when a leans right: c is b's left child (avl.c:963-972). */
  method RaiseRight<D>(nodes: seq<AvlNode<D>>, a: int, b: int, ghost x: Tree<D>)
    returns (nodes': seq<AvlNode<D>>, c: int)
    requires Linked(nodes, x) && Distinct(x) && x.Node? && a == x.id
    requires x.right.Node? && b == x.right.id && x.right.left.Node?
    ensures Linked(nodes', Pivoted(x, 1)) && c == Root(Pivoted(x, 1))
    ensures Reshaped(nodes, nodes', {a, b, c}) && {a, b, c} <= Ids(x)
  {
    ghost var s := x.right;
    ghost var g := s.left;
    InnerRight(nodes, x);
    c := nodes[b].l;
    var s2 := nodes[c].l;
    var s3 := nodes[c].r;
    nodes' := nodes[c := nodes[c].(l := a)];
    nodes' := nodes'[c := nodes'[c].(r := b)];
    nodes' := nodes'[a := nodes'[a].(r := s2)];
    nodes' := nodes'[b := nodes'[b].(l := s3)];
    ghost var ids := {a, b, c};
    assert Reshaped(nodes, nodes', ids);
    ReshapedAgree(nodes, nodes', ids, Ids(s.right));
    ReshapedAgree(nodes, nodes', ids, Ids(g.left));
    ReshapedAgree(nodes, nodes', ids, Ids(g.right));
    ReshapedAgree(nodes, nodes', ids, Ids(x.left));
    LinkedFrame(nodes, nodes', s.right);
    LinkedFrame(nodes, nodes', g.left);
    LinkedFrame(nodes, nodes', g.right);
    LinkedFrame(nodes, nodes', x.left);
    assert Linked(nodes', Node(x.left, x.id, x.d, x.bal, g.left));
    assert Linked(nodes', Node(g.right, s.id, s.d, s.bal, s.right));
  }

  /** Scenario 2 when a leans left: c is b's right child (avl.c:1082-1091). */
  method RaiseLeft<D>(nodes: seq<AvlNode<D>>, a: int, b: int, ghost x: Tree<D>)
    returns (nodes': seq<AvlNode<D>>, c: int)
    requires Linked(nodes, x) && Distinct(x) && x.Node? && a == x.id
    requires x.left.Node? && b == x.left.id && x.left.right.Node?
    ensures Linked(nodes', Pivoted(x, -1)) && c == Root(Pivoted(x, -1))
    ensures Reshaped(nodes, nodes', {a, b, c}) && {a, b, c} <= Ids(x)
  {
    ghost var s := x.left;
    ghost var g := s.right;
    InnerLeft(nodes, x);
    c := nodes[b].r;
    var s2 := nodes[c].r;
    var s3 := nodes[c].l;
    nodes' := nodes[c := nodes[c].(r := a)];
    nodes' := nodes'[c := nodes'[c].(l := b)];
    nodes' := nodes'[a := nodes'[a].(l := s2)];
    nodes' := nodes'[b := nodes'[b].(r := s3)];
    ghost var ids := {a, b, c};
    assert Reshaped(nodes, nodes', ids);
    ReshapedAgree(nodes, nodes', ids, Ids(s.left));
    ReshapedAgree(nodes, nodes', ids, Ids(g.left));
    ReshapedAgree(nodes, nodes', ids, Ids(g.right));
    ReshapedAgree(nodes, nodes', ids, Ids(x.right));
    LinkedFrame(nodes, nodes', s.left);
    LinkedFrame(nodes, nodes', g.left);
    LinkedFrame(nodes, nodes', g.right);
    LinkedFrame(nodes, nodes', x.right);
    assert Linked(nodes', Node(s.left, s.id, s.d, s.bal, g.left));
    assert Linked(nodes', Node(g.right, x.id, x.d, x.bal, x.right));
  }

  /**
   * Scenario 2 of the loop is Settle's double rotation: the balances of
   * avl.c:988-1007 and 1107-1126 are those the insertion's A9 sets.
   */
  lemma RebalancedIsSettle<D>(x: Tree<D>, h: int, dir: int)
    requires dir == 1 || dir == -1
    requires x.Node? && x.bal == 2 * dir && Child(x, dir == -1).Node? && Against(Child(x, dir == -1), dir)
    requires Child(Child(x, dir == -1), dir == 1).Node?
    ensures Settle(x, h) == Carry(Rebalanced(Pivoted(x, dir), dir), -1)
  {
  }

  // ------------------------------------------------------------------
  // One pass of the loop body
  // ------------------------------------------------------------------

  /**
   * Writes inside the subtree y that keep its top node in place keep the
   * tree around it linked.
   */
  lemma InsidePlug<D>(nodes: seq<AvlNode<D>>, nodes': seq<AvlNode<D>>, s: set<nat>,
                      u: seq<Frame<D>>, y: Tree<D>, y': Tree<D>)
    requires Linked(nodes, Plug(u, y)) && Distinct(Plug(u, y)) && y.Node?
    requires Reshaped(nodes, nodes', s) && s <= Ids(y) && Linked(nodes', y') && Root(y') == y.id
    ensures Linked(nodes', Plug(u, y'))
  {
    LinkedAt(nodes, u, y);
    DistinctPlug(u, y);
    ReshapedAgree(nodes, nodes', s, PathIds(u));
    LinkedPathFrame(nodes, nodes', u, y.id);
    LinkedPlug(nodes', u, y');
  }

  /** The top of a plugged tree does not depend on what its top node holds below the path. */
  lemma SameTop<D>(u: seq<Frame<D>>, y: Tree<D>, y': Tree<D>)
    requires Root(y) == Root(y')
    ensures Root(Plug(u, y)) == Root(Plug(u, y'))
  {
    if |u| > 0 {
      RootPlug(u, y);
      RootPlug(u, y');
    }
  }

  /**
   * Scenario 1 at node a, the top of x below path u, leaning to side dir
   * with child b there (avl.c:903-956, 1022-1075): the pointer writes, the
   * relinking of p or the top, then the balances.
   */
  method SingleAt<D>(nodes: seq<AvlNode<D>>, top: int, a: int, b: int, p: int, dir: int,
                     ghost u: seq<Frame<D>>, ghost x: Tree<D>)
    returns (nodes': seq<AvlNode<D>>, top': int, h': int)
    requires dir == 1 || dir == -1
    requires Linked(nodes, Plug(u, x)) && Distinct(Plug(u, x)) && x.Node? && a == x.id
    requires top == Root(Plug(u, x)) && p == (if |u| == 0 then NULL else u[|u| - 1].id)
    requires Child(x, dir == -1).Node? && b == Child(x, dir == -1).id
    ensures Linked(nodes', Plug(u, Tilted(Turned(x, dir), dir)))
    ensures top' == Root(Plug(u, Tilted(Turned(x, dir), dir)))
    ensures h' == (if Child(x, dir == -1).bal == 0 then 0 else -1)
    ensures Reshaped(nodes, nodes', Ids(Plug(u, x)))
  {
    ghost var y := Turned(x, dir);
    assert Linked(nodes, x) && Distinct(x) by {
      LinkedPlug(nodes, u, x);
      DistinctPlug(u, x);
    }
    var nodes1 := Turn(nodes, a, b, dir, x);
    TurnedSame(x, dir);
    ReshapedWiden(nodes, nodes1, {a, b}, Ids(x));
    var nodes2;
    nodes2, top' := TouchUp(nodes, nodes1, top, p, a, b, u, x, y);
    assert Linked(nodes2, y) && Distinct(Plug(u, y)) && {a, b} <= Ids(Plug(u, x)) by {
      LinkedPlug(nodes2, u, y);
      DistinctPlug(u, x);
      DistinctReplace(u, x, y);
      IdsPlug(u, x);
    }
    nodes', h' := TurnBalances(nodes2, a, b, dir, y);
    InsidePlug(nodes2, nodes', {a, b}, u, y, Tilted(y, dir));
    SameTop(u, y, Tilted(y, dir));
    ReshapedWiden(nodes2, nodes', {a, b}, Ids(Plug(u, x)));
    ReshapedTrans(nodes, nodes2, nodes', Ids(Plug(u, x)), Ids(Plug(u, x)));
  }

  /**
   * Scenario 2 at node a, the top of x below path u, leaning to side dir
   * with child b there leaning the other way (avl.c:957-1013, 1076-1132):
   * the pointer writes, the relinking of p or the top, then the balances;
   * c is the new top of the subtree.
   */
  method DoubleAt<D>(nodes: seq<AvlNode<D>>, top: int, a: int, b: int, p: int, dir: int,
                     ghost u: seq<Frame<D>>, ghost x: Tree<D>)
    returns (nodes': seq<AvlNode<D>>, top': int, c: int)
    requires dir == 1 || dir == -1
    requires Linked(nodes, Plug(u, x)) && Distinct(Plug(u, x)) && x.Node? && a == x.id
    requires top == Root(Plug(u, x)) && p == (if |u| == 0 then NULL else u[|u| - 1].id)
    requires Child(x, dir == -1).Node? && b == Child(x, dir == -1).id
    requires Child(Child(x, dir == -1), dir == 1).Node? && -1 <= Child(Child(x, dir == -1), dir == 1).bal <= 1
    ensures Linked(nodes', Plug(u, Rebalanced(Pivoted(x, dir), dir)))
    ensures top' == Root(Plug(u, Rebalanced(Pivoted(x, dir), dir)))
    ensures c == Rebalanced(Pivoted(x, dir), dir).id
    ensures Reshaped(nodes, nodes', Ids(Plug(u, x)))
  {
    ghost var y := Pivoted(x, dir);
    assert Linked(nodes, x) && Distinct(x) by {
      LinkedPlug(nodes, u, x);
      DistinctPlug(u, x);
    }
    var nodes1;
    nodes1, c := Raise(nodes, a, b, dir, x);
    PivotedDistinct(x, dir);
    ReshapedWiden(nodes, nodes1, {a, b, c}, Ids(x));
    var nodes2;
    nodes2, top' := TouchUp(nodes, nodes1, top, p, a, c, u, x, y);
    assert Linked(nodes2, y) && Distinct(Plug(u, y)) && {a, b, c} <= Ids(Plug(u, x)) by {
      LinkedPlug(nodes2, u, y);
      DistinctPlug(u, x);
      DistinctReplace(u, x, y);
      IdsPlug(u, x);
    }
    nodes' := DoubleBalances(nodes2, a, b, c, dir, y);
    InsidePlug(nodes2, nodes', {a, b, c}, u, y, Rebalanced(y, dir));
    SameTop(u, y, Rebalanced(y, dir));
    ReshapedWiden(nodes2, nodes', {a, b, c}, Ids(Plug(u, x)));
    ReshapedTrans(nodes, nodes2, nodes', Ids(Plug(u, x)), Ids(Plug(u, x)));
  }

  /**
   * The rotation part of one pass (avl.c:896-1133) at node a, the top of x
   * below path u, with parent p: the arena now holds Settle's tree, a' is
   * its top node and h' Settle's height change.
   */
  method SettleAt<D>(nodes: seq<AvlNode<D>>, top: int, a: int, p: int, h: int,
                     ghost u: seq<Frame<D>>, ghost x: Tree<D>)
    returns (nodes': seq<AvlNode<D>>, top': int, a': int, h': int)
    requires Linked(nodes, Plug(u, x)) && Distinct(Plug(u, x)) && NearAVL(x) && a == x.id
    requires top == Root(Plug(u, x)) && p == (if |u| == 0 then NULL else u[|u| - 1].id)
    ensures Linked(nodes', Plug(u, Settle(x, h).t)) && top' == Root(Plug(u, Settle(x, h).t))
    ensures Settle(x, h).t.Node? && a' == Settle(x, h).t.id && h' == Settle(x, h).h
    ensures Reshaped(nodes, nodes', Ids(Plug(u, x)))
  {
    LinkedAt(nodes, u, x);
    var bal := GetBal(nodes[a].f);
    if bal == 2 {
      nodes', top', a', h' := HeavyAt(nodes, top, a, p, h, 1, u, x);
    } else if bal == -2 {
      nodes', top', a', h' := HeavyAt(nodes, top, a, p, h, -1, u, x);
    } else {
      nodes', top', a', h' := nodes, top, a, h;
    }
  }

  /**
   * Node a leans 2 * dir: scenario 1 when its child b on that side does
   * not lean the other way, scenario 2 when it does (avl.c:896-1014 for
   * +2, 1015-1133 for -2).
   */
  method HeavyAt<D>(nodes: seq<AvlNode<D>>, top: int, a: int, p: int, h: int, dir: int,
                    ghost u: seq<Frame<D>>, ghost x: Tree<D>)
    returns (nodes': seq<AvlNode<D>>, top': int, a': int, h': int)
    requires dir == 1 || dir == -1
    requires Linked(nodes, Plug(u, x)) && Distinct(Plug(u, x)) && NearAVL(x) && a == x.id && x.bal == 2 * dir
    requires top == Root(Plug(u, x)) && p == (if |u| == 0 then NULL else u[|u| - 1].id)
    ensures Linked(nodes', Plug(u, Settle(x, h).t)) && top' == Root(Plug(u, Settle(x, h).t))
    ensures Settle(x, h).t.Node? && a' == Settle(x, h).t.id && h' == Settle(x, h).h
    ensures Reshaped(nodes, nodes', Ids(Plug(u, x)))
  {
    LinkedAt(nodes, u, x);
    HeavyShape(x, dir);
    ghost var s := Child(x, dir == -1);
    var b := if dir == 1 then nodes[a].r else nodes[a].l;
    assert Linked(nodes, s) && b == s.id;
    var bb := GetBal(nodes[b].f);
    if (dir == 1 && bb >= 0) || (dir == -1 && bb <= 0) {
      nodes', top', h' := SingleAt(nodes, top, a, b, p, dir, u, x);
      a' := b;
      TiltedIsSettle(x, h, dir);
    } else {
      nodes', top', a' := DoubleAt(nodes, top, a, b, p, dir, u, x);
      h' := -1;
      RebalancedIsSettle(x, h, dir);
    }
  }

  /**
   * The balance update of one pass (avl.c:1138-1161): if the subtree s at
   * a, below the last frame of u, shrank, the parent p's balance moves away
   * from a's side and h records whether p's subtree shrank in turn.
   */
  method ClimbAt<D>(nodes: seq<AvlNode<D>>, p: int, a: int, h: int, ghost u: seq<Frame<D>>, ghost s: Tree<D>)
    returns (nodes': seq<AvlNode<D>>, h': int)
    requires |u| > 0 && -1 <= u[|u| - 1].bal <= 1 && p == u[|u| - 1].id
    requires Linked(nodes, Plug(u, s)) && Distinct(Plug(u, s)) && s.Node? && a == s.id
    ensures Linked(nodes', Plug(u[..|u| - 1], Climb(u[|u| - 1], s, h).t)) && h' == Climb(u[|u| - 1], s, h).h
    ensures Distinct(Plug(u[..|u| - 1], Climb(u[|u| - 1], s, h).t))
    ensures Root(Plug(u[..|u| - 1], Climb(u[|u| - 1], s, h).t)) == Root(Plug(u, s))
    ensures Reshaped(nodes, nodes', {p})
  {
    ghost var f := u[|u| - 1];
    ghost var v := u[..|u| - 1];
    ghost var t := PlugOne(f, s);
    assert Plug(u, s) == Plug(v, t);
    LinkedAt(nodes, v, t);
    assert Distinct(t) && p < |nodes| by {
      DistinctPlug(v, t);
    }
    assert (nodes[p].l == a) == f.goLeft;
    if h != 0 {
      if nodes[p].l == a {
        nodes' := nodes[p := nodes[p].(f := IncBal(nodes[p].f))];
      } else {
        nodes' := nodes[p := nodes[p].(f := DecBal(nodes[p].f))];
      }
      h' := if GetBal(nodes'[p].f) == 0 then -1 else 0;
      ghost var b := if f.goLeft then f.bal + 1 else f.bal - 1;
      WriteNode(nodes, v, t, nodes'[p], b);
      assert Climb(f, s, h).t == t.(bal := b);
    } else {
      nodes', h' := nodes, h;
    }
    assert Reshaped(nodes, nodes', {p});
  }

  // ------------------------------------------------------------------
  // The loop
  // ------------------------------------------------------------------

  /** Two trees with the same nodes and the same in-order sequence are equally distinct. */
  lemma DistinctSame<D>(a: Tree<D>, b: Tree<D>)
    requires Distinct(a) && Ids(b) == Ids(a) && Inorder(b) == Inorder(a)
    ensures Distinct(b)
  {
    DistinctCard(a);
    DistinctCard(b);
    InorderSize(a);
    InorderSize(b);
  }

  /**
   * One pass of the loop in terms of the value model: Fixup from node x
   * below path v is Settle at x, then Climb into v's last frame and Fixup
   * from there; the settled and climbed trees keep the loop's invariant.
   */
  lemma FixupPass<D>(v: seq<Frame<D>>, x: Tree<D>, h: int, u0: Tree<D>)
    requires NearAVL(x) && Pending(x, Height(u0), h) && AVL(Plug(v, u0))
    ensures var s := Settle(x, h);
      s.t.Node? && (|v| == 0 ==> Fixup(v, x, h) == s)
    ensures |v| > 0 ==> var s := Settle(x, h); var f := v[|v| - 1];
      var up := Climb(f, s.t, s.h);
      -1 <= f.bal <= 1
      && Fixup(v, x, h) == Fixup(v[..|v| - 1], up.t, up.h)
      && NearAVL(up.t) && Pending(up.t, Height(PlugOne(f, u0)), up.h)
      && AVL(Plug(v[..|v| - 1], PlugOne(f, u0)))
  {
    SettleCorrect(x, Height(u0), h);
    if |v| > 0 {
      var s := Settle(x, h);
      var f := v[|v| - 1];
      assert v[..|v| - 1] + [f] == v;
      LastBalanced(v[..|v| - 1], f, u0);
      AvlSub(v[..|v| - 1], PlugOne(f, u0));
      ClimbCorrect(f, s.t, u0, s.h);
    }
  }

  /**
   * Where the loop starts: with the node above the hole already climbed
   * into, the loop's invariant holds at the deepest node of the new path
   * (Splice's path w).
   */
  lemma RetraceStart<D>(z: seq<Frame<D>>, t: Tree<D>)
    requires t.Node? && AVL(Plug(z, t)) && |Splice(z, t).0| > 0
    ensures var (w, q) := Splice(z, t); var f := w[|w| - 1]; var start := Climb(f, q, -1);
      NearAVL(start.t) && Pending(start.t, Height(PlugOne(f, Removed(z, t))), start.h)
      && AVL(Plug(w[..|w| - 1], PlugOne(f, Removed(z, t))))
  {
    var (w, q) := Splice(z, t);
    var f := w[|w| - 1];
    var x := Removed(z, t);
    SpliceCorrect(z, t);
    assert Plug(w, x) == Plug(w[..|w| - 1], PlugOne(f, x));
    AvlSub(w[..|w| - 1], PlugOne(f, x));
    ClimbCorrect(f, q, x, -1);
  }

  /**
   * The state at the top of the loop with k entries left on the stack of
   * path w: x is the subtree at w[k - 1], h its pending height change, and
   * Fixup from there yields r.  u0 is x's subtree before the deletion.
   */
  ghost predicate Looping<D>(nodes: seq<AvlNode<D>>, top: int, h: int, w: seq<Frame<D>>, k: int,
                             x: Tree<D>, u0: Tree<D>, r: Carry<D>)
  {
    0 < k <= |w| && x.Node? && x.id == w[k - 1].id && Fixup(w[..k - 1], x, h) == r
    && Linked(nodes, Plug(w[..k - 1], x)) && top == Root(Plug(w[..k - 1], x))
    && NearAVL(x) && Pending(x, Height(u0), h) && AVL(Plug(w[..k - 1], u0))
  }

  /**
   * One pass of the loop (avl.c:884-1162): pop a and its parent p, settle
   * a, and climb into p.  Afterwards the state is that of the next pass,
   * or, at the top of the tree, the final tree r.
   */
  method Pass<D>(nodes: seq<AvlNode<D>>, top: int, h: int, stack: array<int>, k: int,
                 ghost w: seq<Frame<D>>, ghost x: Tree<D>, ghost u0: Tree<D>, ghost r: Carry<D>)
    returns (nodes': seq<AvlNode<D>>, top': int, h': int, ghost x': Tree<D>, ghost u0': Tree<D>)
    requires Looping(nodes, top, h, w, k, x, u0, r) && Stacked(stack[..], w) && Distinct(r.t)
    ensures k > 1 ==> Looping(nodes', top', h', w, k - 1, x', u0', r)
    ensures k == 1 ==> Linked(nodes', r.t) && top' == Root(r.t) && h' == r.h
    ensures Reshaped(nodes, nodes', Ids(r.t))
  {
    var i := k - 1;
    var a := stack[i];
    var p := if i > 0 then stack[i - 1] else NULL;
    ghost var v := w[..i];
    assert a == x.id && p == (if |v| == 0 then NULL else v[|v| - 1].id);
    assert Distinct(Plug(v, x)) && Ids(Plug(v, x)) == Ids(r.t) by {
      DistinctSame(r.t, Plug(v, x));
    }
    var a1, h1;
    nodes', top', a1, h1 := SettleAt(nodes, top, a, p, h, v, x);
    if i > 0 {
      ghost var nodes1 := nodes';
      nodes', h', x', u0' := Lift(nodes', top', p, a1, h1, w, i, x, h, u0, r);
      ReshapedTrans(nodes, nodes1, nodes', Ids(r.t), Ids(r.t));
    } else {
      h', x', u0' := h1, x, u0;
      assert Fixup(v, x, h) == Settle(x, h);
    }
  }

  /**
   * The balance update of a pass that has a parent p, the node of w[i - 1],
   * after a was settled below it (avl.c:1138-1161), in terms of the loop
   * state: the next pass starts at p.
   */
  method Lift<D>(nodes: seq<AvlNode<D>>, top: int, p: int, a: int, h: int,
                 ghost w: seq<Frame<D>>, ghost i: int, ghost x: Tree<D>, ghost h0: int, ghost u0: Tree<D>,
                 ghost r: Carry<D>)
    returns (nodes': seq<AvlNode<D>>, h': int, ghost x': Tree<D>, ghost u0': Tree<D>)
    requires 0 < i < |w| && p == w[i - 1].id && Fixup(w[..i], x, h0) == r && Distinct(r.t)
    requires NearAVL(x) && Pending(x, Height(u0), h0) && AVL(Plug(w[..i], u0))
    requires Linked(nodes, Plug(w[..i], Settle(x, h0).t)) && top == Root(Plug(w[..i], Settle(x, h0).t))
    requires Settle(x, h0).t.Node? && a == Settle(x, h0).t.id && h == Settle(x, h0).h
    ensures Looping(nodes', top, h', w, i, x', u0', r)
    ensures Reshaped(nodes, nodes', Ids(r.t))
  {
    ghost var v := w[..i];
    ghost var s := Settle(x, h0);
    ghost var f := v[|v| - 1];
    ghost var up := Climb(f, s.t, s.h);
    assert -1 <= f.bal <= 1 && Fixup(v, x, h0) == Fixup(v[..|v| - 1], up.t, up.h)
      && NearAVL(up.t) && Pending(up.t, Height(PlugOne(f, u0)), up.h)
      && AVL(Plug(v[..|v| - 1], PlugOne(f, u0))) by {
      FixupPass(v, x, h0, u0);
    }
    assert Distinct(Plug(v, s.t)) by {
      ReplaceContents(v, x, s.t);
      DistinctSame(r.t, Plug(v, s.t));
    }
    nodes', h' := ClimbAt(nodes, p, a, h, v, s.t);
    assert p in Ids(r.t) by {
      IdsPlug(v[..|v| - 1], up.t);
    }
    ReshapedWiden(nodes, nodes', {p}, Ids(r.t));
    x', u0' := up.t, PlugOne(f, u0);
    assert w[..i - 1] == v[..|v| - 1];
  }

  /**
   * Rewriting nodes outside the tree KnuthDelete will build, such as the
   * removed node itself (avl.c:807-812), leaves the spliced arena as it is.
   */
  lemma SplicedFrame<D>(a: seq<AvlNode<D>>, b: seq<AvlNode<D>>, top: int, h: int, z: seq<Frame<D>>, t: Tree<D>)
    requires t.Node? && Spliced(a, top, h, Splice(z, t).0, Splice(z, t).1)
    requires Agree(a, b, Ids(KnuthDelete(z, t).t))
    ensures Spliced(b, top, h, Splice(z, t).0, Splice(z, t).1)
  {
    var (w, q) := Splice(z, t);
    if |w| == 0 {
      LinkedFrame(a, b, q);
    } else {
      var up := Climb(w[|w| - 1], q, -1);
      LinkedFrame(a, b, Plug(w[..|w| - 1], up.t));
    }
  }

  /**
   * The loop of avl.c:883-1162 over the stack of path w = Splice(z, t).0,
   * after the splice.  The arena ends holding the tree KnuthDelete
   * describes, with KnuthDelete's final h.
   */
  method Unwind<D>(nodes: seq<AvlNode<D>>, top: int, h: int, stack: array<int>, sp: int,
                    ghost z: seq<Frame<D>>, ghost t: Tree<D>)
    returns (nodes': seq<AvlNode<D>>, top': int, h': int)
    requires t.Node? && AVL(Plug(z, t)) && Distinct(Plug(z, t))
    requires Spliced(nodes, top, h, Splice(z, t).0, Splice(z, t).1)
    requires sp == |Splice(z, t).0| && Stacked(stack[..], Splice(z, t).0)
    ensures Linked(nodes', KnuthDelete(z, t).t) && top' == Root(KnuthDelete(z, t).t)
    ensures h' == KnuthDelete(z, t).h
    ensures Reshaped(nodes, nodes', Ids(KnuthDelete(z, t).t))
  {
    ghost var w := Splice(z, t).0;
    ghost var q := Splice(z, t).1;
    ghost var r := KnuthDelete(z, t);
    KnuthDeleteDistinct(z, t);
    nodes', top', h' := nodes, top, h;
    ghost var x: Tree<D> := q;
    ghost var u0: Tree<D> := q;
    if |w| > 0 {
      x := Climb(w[|w| - 1], q, -1).t;
      u0 := PlugOne(w[|w| - 1], Removed(z, t));
      RetraceStart(z, t);
    }
    assert Stacked(stack[..], w) && Distinct(r.t);
    nodes', top', h' := Retreat(nodes, top, h, stack, sp, w, x, u0, r);
  }

  /** The loop of avl.c:883-1162, from pass k down to the top of the tree. */
  method Retreat<D>(nodes: seq<AvlNode<D>>, top: int, h: int, stack: array<int>, k0: int,
                    ghost w: seq<Frame<D>>, ghost x0: Tree<D>, ghost u: Tree<D>, ghost r: Carry<D>)
    returns (nodes': seq<AvlNode<D>>, top': int, h': int)
    requires 0 <= k0 <= |w| && Stacked(stack[..], w) && Distinct(r.t)
    requires k0 > 0 ==> Looping(nodes, top, h, w, k0, x0, u, r)
    requires k0 == 0 ==> Linked(nodes, r.t) && top == Root(r.t) && h == r.h
    ensures Linked(nodes', r.t) && top' == Root(r.t) && h' == r.h
    ensures Reshaped(nodes, nodes', Ids(r.t))
  {
    nodes', top', h' := nodes, top, h;
    ghost var x, u0 := x0, u;
    var k := k0;
    while k > 0
      invariant 0 <= k <= |w|
      invariant k > 0 ==> Looping(nodes', top', h', w, k, x, u0, r)
      invariant k == 0 ==> Linked(nodes', r.t) && top' == Root(r.t) && h' == r.h
      invariant Reshaped(nodes, nodes', Ids(r.t))
      decreases k
    {
      ghost var nodes0 := nodes';
      nodes', top', h', x, u0 := Pass(nodes', top', h', stack, k, w, x, u0, r);
      ReshapedTrans(nodes, nodes0, nodes', Ids(r.t), Ids(r.t));
      k := k - 1;
    }
  }
}
