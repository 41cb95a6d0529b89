/**
 * Abstract view of the node graph: a datatype tree whose nodes carry the
 * arena index (`id`) of the AVL_NODE they stand for, its payload `d` and its
 * stored balance `bal`.  Also the one-hole contexts ("paths") that the
 * source keeps on its explicit stacks, and AVL_checkBalance.
 */
module Trees {
  import opened Order

  /** The NULL pointer of the source; arena indices are natural numbers. */
  const NULL: int := -1

  datatype Tree<D> = Leaf | Node(left: Tree<D>, id: nat, d: D, bal: int, right: Tree<D>)

  function Max(a: int, b: int): (r: int) { if a < b then b else a }

  /** Index of the top node of t, NULL for the empty tree. */
  function Root<D>(t: Tree<D>): (r: int) {
    if t.Leaf? then NULL else t.id
  }

  /** Number of nodes on the longest root-to-leaf path (avl.h:97). */
  function Height<D>(t: Tree<D>): (r: nat) {
    match t
    case Leaf => 0
    case Node(l, _, _, _, r) => 1 + Max(Height(l), Height(r))
  }

  function Size<D>(t: Tree<D>): (r: nat) {
    match t
    case Leaf => 0
    case Node(l, _, _, _, r) => Size(l) + 1 + Size(r)
  }

  /** Payloads in left-root-right order: what AVL_walk hands its callback. */
  function Inorder<D>(t: Tree<D>): (r: seq<D>) {
    match t
    case Leaf => []
    case Node(l, _, x, _, r) => Inorder(l) + [x] + Inorder(r)
  }

  /** Arena indices of the nodes of t. */
  function Ids<D>(t: Tree<D>): (r: set<nat>) {
    match t
    case Leaf => {}
    case Node(l, i, _, _, r) => Ids(l) + {i} + Ids(r)
  }

  /** No arena node occurs twice: the tree exclusively owns its nodes. */
  ghost predicate Distinct<D>(t: Tree<D>) {
    match t
    case Leaf => true
    case Node(l, i, _, _, r) =>
      i !in Ids(l) && i !in Ids(r) && Ids(l) !! Ids(r) && Distinct(l) && Distinct(r)
  }

  /** Every stored balance is height(right) - height(left). */
  ghost predicate Exact<D>(t: Tree<D>) {
    match t
    case Leaf => true
    case Node(l, _, _, b, r) => b == Height(r) - Height(l) && Exact(l) && Exact(r)
  }

  /** The AVL invariant: exact balances, all within -1..1. */
  ghost predicate AVL<D>(t: Tree<D>) {
    match t
    case Leaf => true
    case Node(l, _, _, b, r) =>
      b == Height(r) - Height(l) && -1 <= b <= 1 && AVL(l) && AVL(r)
  }

  /** Binary-search-tree order: the in-order sequence is strictly increasing. */
  ghost predicate Ordered<D>(eval: (D, D) -> int, t: Tree<D>) {
    Sorted(eval, Inorder(t))
  }

  /**
   * AVL_checkBalance (avl.c:1411-1429): recompute heights bottom-up and
   * return -1 as soon as a stored balance disagrees with the computed one or
   * leaves -1..1; otherwise return the height.  The diagnostic print of the
   * source is not modelled.
   */
  function CheckBalance<D>(t: Tree<D>): (h: int)
    ensures h >= -1
    ensures h >= 0 ==> h == Height(t)
  {
    match t
    case Leaf => 0
    case Node(left, _, _, a, right) =>
      var l := CheckBalance(left);
      var r := CheckBalance(right);
      if l == -1 || r == -1 then -1
      else
        var b := r - l;
        if b != a || b < -1 || b > 1 then -1
        else if b > 0 then r + 1
        else l + 1
  }

  /** The oracle the tests rely on: -1 exactly when the AVL invariant fails, the height otherwise. */
  lemma {:induction false} CheckBalanceCorrect<D>(t: Tree<D>)
    ensures CheckBalance(t) == if AVL(t) then Height(t) else -1
  {
    match t
    case Leaf =>
    case Node(l, _, _, _, r) =>
      CheckBalanceCorrect(l);
      CheckBalanceCorrect(r);
  }

  lemma {:induction false} IdsSize<D>(t: Tree<D>)
    requires Distinct(t)
    ensures |Ids(t)| == Size(t)
  {
    match t
    case Leaf =>
    case Node(l, i, _, _, r) =>
      IdsSize(l);
      IdsSize(r);
      assert Ids(l) !! Ids(r);
      assert |Ids(l) + Ids(r)| == |Ids(l)| + |Ids(r)|;
      assert Ids(t) == (Ids(l) + Ids(r)) + {i};
  }

  /** Distinctness is a matter of counting: as many indices as nodes. */
  lemma {:induction false} DistinctCard<D>(t: Tree<D>)
    ensures |Ids(t)| <= Size(t)
    ensures Distinct(t) <==> |Ids(t)| == Size(t)
  {
    match t
    case Leaf =>
    case Node(l, i, _, _, r) =>
      DistinctCard(l);
      DistinctCard(r);
      var a, b := Ids(l), Ids(r);
      assert |a + b| + |a * b| == |a| + |b|;
      assert |(a + b) + {i}| + |(a + b) * {i}| == |a + b| + 1;
      assert Ids(t) == (a + b) + {i};
      if |Ids(t)| == Size(t) {
        assert a * b == {} && (a + b) * {i} == {};
        assert a !! b;
        assert i !in a + b;
      }
  }

  lemma {:induction false} InorderSize<D>(t: Tree<D>)
    ensures |Inorder(t)| == Size(t)
  {
    match t
    case Leaf =>
    case Node(l, _, _, _, r) =>
      InorderSize(l);
      InorderSize(r);
  }

  /** Every AVL tree is exactly balanced. */
  lemma {:induction false} AvlExact<D>(t: Tree<D>)
    requires AVL(t)
    ensures Exact(t)
  {
    match t
    case Leaf =>
    case Node(l, _, _, _, r) =>
      AvlExact(l);
      AvlExact(r);
  }

  /**
   * A rotation moves nodes but keeps the in-order sequence and the node set:
   * ((A x B) y C) and (A x (B y C)) agree on both, whatever the balances.
   */
  lemma Rotation<D>(a: Tree<D>, xi: nat, xd: D, xb: int, b: Tree<D>, yi: nat, yd: D, yb: int, c: Tree<D>,
                    xb': int, yb': int)
    ensures Inorder(Node(Node(a, xi, xd, xb, b), yi, yd, yb, c)) == Inorder(Node(a, xi, xd, xb', Node(b, yi, yd, yb', c)))
    ensures Ids(Node(Node(a, xi, xd, xb, b), yi, yd, yb, c)) == Ids(Node(a, xi, xd, xb', Node(b, yi, yd, yb', c)))
  {
  }

  // ------------------------------------------------------------------
  // Paths: the chain of ancestors that the source keeps on its stacks.
  // ------------------------------------------------------------------

  /**
   * One ancestor on a path: its node data, the side the path continues on
   * (`goLeft`), and its other subtree `sib`.
   */
  datatype Frame<D> = Frame(goLeft: bool, id: nat, d: D, bal: int, sib: Tree<D>)

  /** Put t in the hole of one frame. */
  function PlugOne<D>(f: Frame<D>, t: Tree<D>): (r: Tree<D>) {
    if f.goLeft then Node(t, f.id, f.d, f.bal, f.sib) else Node(f.sib, f.id, f.d, f.bal, t)
  }

  /** Put t in the hole of path z; z[0] is the top node of the tree. */
  function Plug<D>(z: seq<Frame<D>>, t: Tree<D>): (r: Tree<D>)
    decreases |z|
  {
    if |z| == 0 then t else Plug(z[..|z| - 1], PlugOne(z[|z| - 1], t))
  }

  /** Indices of the path's nodes and of every node hanging off it. */
  function PathIds<D>(z: seq<Frame<D>>): (r: set<nat>)
    decreases |z|
  {
    if |z| == 0 then {} else PathIds(z[..|z| - 1]) + {z[|z| - 1].id} + Ids(z[|z| - 1].sib)
  }

  /** Payloads of the path that come before (left of) the hole in order. */
  function PathLeft<D>(z: seq<Frame<D>>): (r: seq<D>)
    decreases |z|
  {
    if |z| == 0 then []
    else
      var f := z[|z| - 1];
      PathLeft(z[..|z| - 1]) + (if f.goLeft then [] else Inorder(f.sib) + [f.d])
  }

  /** Payloads of the path that come after (right of) the hole in order. */
  function PathRight<D>(z: seq<Frame<D>>): (r: seq<D>)
    decreases |z|
  {
    if |z| == 0 then []
    else
      var f := z[|z| - 1];
      (if f.goLeft then [f.d] + Inorder(f.sib) else []) + PathRight(z[..|z| - 1])
  }

  /** The frame for stepping from node t into its left or right child. */
  function Step<D>(t: Tree<D>, goLeft: bool): (r: Frame<D>)
    requires t.Node?
  {
    Frame(goLeft, t.id, t.d, t.bal, if goLeft then t.right else t.left)
  }

  function Child<D>(t: Tree<D>, goLeft: bool): (r: Tree<D>)
    requires t.Node?
  {
    if goLeft then t.left else t.right
  }

  lemma StepPlug<D>(t: Tree<D>, goLeft: bool)
    requires t.Node?
    ensures PlugOne(Step(t, goLeft), Child(t, goLeft)) == t
  {
  }

  lemma PlugSnoc<D>(z: seq<Frame<D>>, f: Frame<D>, t: Tree<D>)
    ensures Plug(z + [f], t) == Plug(z, PlugOne(f, t))
  {
    assert (z + [f])[..|z|] == z;
  }

  lemma {:induction false} PlugConcat<D>(z1: seq<Frame<D>>, z2: seq<Frame<D>>, t: Tree<D>)
    ensures Plug(z1 + z2, t) == Plug(z1, Plug(z2, t))
    decreases |z2|
  {
    if |z2| == 0 {
      assert z1 + z2 == z1;
    } else {
      var z2' := z2[..|z2| - 1];
      var f := z2[|z2| - 1];
      assert z2 == z2' + [f];
      assert z1 + z2 == (z1 + z2') + [f];
      PlugSnoc(z1 + z2', f, t);
      PlugConcat(z1, z2', PlugOne(f, t));
      PlugSnoc(z2', f, t);
    }
  }

  lemma PlugCons<D>(f: Frame<D>, z: seq<Frame<D>>, t: Tree<D>)
    ensures Plug([f] + z, t) == PlugOne(f, Plug(z, t))
  {
    PlugConcat([f], z, t);
    PlugSnoc([], f, Plug(z, t));
    assert [] + [f] == [f];
  }

  /** Splitting off the last frame of a path that ends in a non-empty tail y. */
  lemma LastOf<D>(z: seq<Frame<D>>, y: seq<Frame<D>>)
    requires |y| > 0
    ensures z + y == (z + y[..|y| - 1]) + [y[|y| - 1]]
  {
    assert y == y[..|y| - 1] + [y[|y| - 1]];
  }

  /** Splitting a path at index k. */
  lemma PlugSplit<D>(z: seq<Frame<D>>, k: nat, t: Tree<D>)
    requires k < |z|
    ensures Plug(z, t) == Plug(z[..k], PlugOne(z[k], Plug(z[k + 1..], t)))
  {
    assert z == z[..k] + ([z[k]] + z[k + 1..]);
    PlugConcat(z[..k], [z[k]] + z[k + 1..], t);
    PlugCons(z[k], z[k + 1..], t);
  }

  lemma {:induction false} PathIdsConcat<D>(z1: seq<Frame<D>>, z2: seq<Frame<D>>)
    ensures PathIds(z1 + z2) == PathIds(z1) + PathIds(z2)
    decreases |z2|
  {
    if |z2| == 0 {
      assert z1 + z2 == z1;
    } else {
      var z2' := z2[..|z2| - 1];
      assert z2 == z2' + [z2[|z2| - 1]];
      assert (z1 + z2)[..|z1 + z2| - 1] == z1 + z2';
      PathIdsConcat(z1, z2');
    }
  }

  lemma {:induction false} InorderPlug<D>(z: seq<Frame<D>>, t: Tree<D>)
    ensures Inorder(Plug(z, t)) == PathLeft(z) + Inorder(t) + PathRight(z)
    decreases |z|
  {
    if |z| > 0 {
      var f := z[|z| - 1];
      InorderPlug(z[..|z| - 1], PlugOne(f, t));
    }
  }

  lemma {:induction false} IdsPlug<D>(z: seq<Frame<D>>, t: Tree<D>)
    ensures Ids(Plug(z, t)) == PathIds(z) + Ids(t)
    decreases |z|
  {
    if |z| > 0 {
      var f := z[|z| - 1];
      IdsPlug(z[..|z| - 1], PlugOne(f, t));
    }
  }

  /** Replacing the subtree in the hole by one with the same contents keeps the contents. */
  lemma ReplaceContents<D>(u: seq<Frame<D>>, mid: Tree<D>, top: Tree<D>)
    requires Inorder(top) == Inorder(mid) && Ids(top) == Ids(mid)
    ensures Inorder(Plug(u, top)) == Inorder(Plug(u, mid)) && Ids(Plug(u, top)) == Ids(Plug(u, mid))
  {
    InorderPlug(u, top);
    InorderPlug(u, mid);
    IdsPlug(u, top);
    IdsPlug(u, mid);
  }

  /** A path whose nodes and hanging subtrees are pairwise disjoint. */
  ghost predicate DistinctPath<D>(z: seq<Frame<D>>)
    decreases |z|
  {
    if |z| == 0 then true
    else
      var f := z[|z| - 1];
      DistinctPath(z[..|z| - 1]) && Distinct(f.sib) && f.id !in Ids(f.sib)
      && PathIds(z[..|z| - 1]) !! ({f.id} + Ids(f.sib))
  }

  lemma {:induction false} DistinctPlug<D>(z: seq<Frame<D>>, t: Tree<D>)
    ensures Distinct(Plug(z, t)) <==> DistinctPath(z) && Distinct(t) && PathIds(z) !! Ids(t)
    decreases |z|
  {
    if |z| > 0 {
      var z' := z[..|z| - 1];
      var f := z[|z| - 1];
      DistinctPlug(z', PlugOne(f, t));
    }
  }

  /** Replacing the subtree in the hole keeps the tree distinct. */
  lemma DistinctReplace<D>(z: seq<Frame<D>>, t: Tree<D>, t': Tree<D>)
    requires Distinct(Plug(z, t)) && Distinct(t') && PathIds(z) !! Ids(t')
    ensures Distinct(Plug(z, t'))
  {
    DistinctPlug(z, t);
    DistinctPlug(z, t');
  }

  lemma {:induction false} AvlSub<D>(z: seq<Frame<D>>, t: Tree<D>)
    requires AVL(Plug(z, t))
    ensures AVL(t)
    decreases |z|
  {
    if |z| > 0 {
      AvlSub(z[..|z| - 1], PlugOne(z[|z| - 1], t));
    }
  }

  /** A subtree may be replaced by any AVL tree of the same height. */
  lemma {:induction false} AvlReplace<D>(z: seq<Frame<D>>, t: Tree<D>, t': Tree<D>)
    requires AVL(Plug(z, t)) && AVL(t') && Height(t') == Height(t)
    ensures AVL(Plug(z, t')) && Height(Plug(z, t')) == Height(Plug(z, t))
    decreases |z|
  {
    if |z| > 0 {
      var f := z[|z| - 1];
      AvlSub(z[..|z| - 1], PlugOne(f, t));
      AvlReplace(z[..|z| - 1], PlugOne(f, t), PlugOne(f, t'));
    }
  }

  /** Every node of a path lies within the height of the whole tree. */
  lemma {:induction false} HeightPlug<D>(z: seq<Frame<D>>, t: Tree<D>)
    ensures Height(Plug(z, t)) >= |z| + Height(t)
    decreases |z|
  {
    if |z| > 0 {
      HeightPlug(z[..|z| - 1], PlugOne(z[|z| - 1], t));
    }
  }

  /** The top node of a tree with a hole is the path's first node. */
  lemma {:induction false} RootPlug<D>(z: seq<Frame<D>>, t: Tree<D>)
    requires |z| > 0
    ensures Root(Plug(z, t)) == z[0].id
    decreases |z|
  {
    if |z| > 1 {
      RootPlug(z[..|z| - 1], PlugOne(z[|z| - 1], t));
    }
  }

  /** Every node of a path is among its ids. */
  lemma {:induction false} PathIdsHas<D>(z: seq<Frame<D>>, i: int)
    requires 0 <= i < |z|
    ensures z[i].id in PathIds(z)
    decreases |z|
  {
    if i < |z| - 1 {
      PathIdsHas(z[..|z| - 1], i);
    }
  }

  /** A path that follows the search for k: left exactly where k sorts before the node. */
  predicate SearchPath<D>(eval: (D, D) -> int, z: seq<Frame<D>>, k: D) {
    forall j :: 0 <= j < |z| ==> (z[j].goLeft <==> eval(z[j].d, k) < 0) && eval(z[j].d, k) != 0
  }

  /**
   * In an ordered tree, everything left of the hole of a search path for k
   * sorts before k and everything right of it after k.
   */
  lemma {:induction false} SearchPathSplit<D(!new)>(eval: (D, D) -> int, z: seq<Frame<D>>, t: Tree<D>, k: D)
    requires IsComparator(eval)
    requires SearchPath(eval, z, k) && Ordered(eval, Plug(z, t))
    ensures forall x :: x in PathLeft(z) ==> Before(eval, x, k)
    ensures forall y :: y in PathRight(z) ==> Before(eval, k, y)
    decreases |z|
  {
    if |z| > 0 {
      var z' := z[..|z| - 1];
      var f := z[|z| - 1];
      var u := PlugOne(f, t);
      SearchPathSplit(eval, z', u, k);
      InorderPlug(z', u);
      var s := Inorder(Plug(z, t));
      assert s == PathLeft(z') + Inorder(u) + PathRight(z');
      if f.goLeft {
        assert Before(eval, k, f.d) by { assert eval(f.d, k) < 0; }
        assert Inorder(u) == Inorder(t) + [f.d] + Inorder(f.sib);
        forall y | y in Inorder(f.sib) ensures Before(eval, k, y) {
          var i :| 0 <= i < |Inorder(f.sib)| && Inorder(f.sib)[i] == y;
          var p := |PathLeft(z')| + |Inorder(t)|;
          assert s[p] == f.d && s[p + 1 + i] == y;
          assert Before(eval, f.d, y);
          BeforeTrans(eval, k, f.d, y);
        }
      } else {
        assert Before(eval, f.d, k) by { assert eval(f.d, k) > 0; }
        assert Inorder(u) == Inorder(f.sib) + [f.d] + Inorder(t);
        forall x | x in Inorder(f.sib) ensures Before(eval, x, k) {
          var i :| 0 <= i < |Inorder(f.sib)| && Inorder(f.sib)[i] == x;
          var p := |PathLeft(z')| + |Inorder(f.sib)|;
          assert s[p] == f.d && s[|PathLeft(z')| + i] == x;
          assert Before(eval, x, f.d);
          BeforeTrans(eval, x, f.d, k);
        }
      }
    }
  }

  /**
   * One step of a search for k in an ordered tree: whether a payload equal
   * to k is present is decided in the child the comparison selects.
   */
  lemma SearchStep<D(!new)>(eval: (D, D) -> int, t: Tree<D>, k: D)
    requires IsComparator(eval) && t.Node? && Ordered(eval, t) && eval(t.d, k) != 0
    ensures Ordered(eval, Child(t, eval(t.d, k) < 0))
    ensures Absent(eval, Inorder(t), k) <==> Absent(eval, Inorder(Child(t, eval(t.d, k) < 0)), k)
    ensures forall x :: x in Inorder(Child(t, eval(t.d, k) < 0)) ==> x in Inorder(t)
  {
    var l, x, r := Inorder(t.left), t.d, Inorder(t.right);
    SortedParts(eval, l, x, r);
    AbsentConcat(eval, l + [x], r, k);
    AbsentConcat(eval, l, [x], k);
    if eval(x, k) < 0 {
      SortedAbsentRight(eval, x, r, k);
    } else {
      SortedAbsentLeft(eval, x, l, k);
    }
  }
}
