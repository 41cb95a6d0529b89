/**
 * The memory of a tree: every AVL_NODE ever obtained from malloc, as one
 * sequence indexed by "address" (a pointer is an index, NULL is -1).  The
 * nodes come in slabs of allocAtOnce consecutive indices; slab k covers
 * [k * N, (k + 1) * N) and is live until AVL_dealloc hands it back.
 *
 * This module relates the arena to the abstract trees of module Trees
 * (`Linked`), and states the allocator's bookkeeping (`Heap`, `FreeChain`).
 */
module Arena {
  import opened Flags
  import opened Trees

  datatype Option<T> = None | Some(value: T)

  /** AVL_MAX_DEPTH (avl.h:75): the size of the explicit stacks. */
  const MAX_DEPTH: int := 64

  /** AVL_NODE (avl.h:79-85): child pointers, the flag byte, the user payload. */
  datatype AvlNode<D> = AvlNode(l: int, r: int, f: bv8, d: Option<D>)

  /** The node with its child pointer on one side replaced. */
  function WithChild<D>(n: AvlNode<D>, goLeft: bool, c: int): (r: AvlNode<D>) {
    if goLeft then n.(l := c) else n.(r := c)
  }

  /** Node n stores exactly these pointers, payload and balance. */
  ghost predicate Holds<D>(n: AvlNode<D>, l: int, d: D, b: int, r: int) {
    n.l == l && n.r == r && n.d == Some(d) && GetBal(n.f) == b
  }

  /** The arena represents tree t: every node of t is stored at its index with its links. */
  ghost predicate Linked<D>(nodes: seq<AvlNode<D>>, t: Tree<D>) {
    match t
    case Leaf => true
    case Node(l, i, d, b, r) =>
      i < |nodes| && Holds(nodes[i], Root(l), d, b, Root(r)) && Linked(nodes, l) && Linked(nodes, r)
  }

  /**
   * The arena represents path z, whose deepest node points into its hole at
   * index `hole`.
   */
  ghost predicate LinkedPath<D>(nodes: seq<AvlNode<D>>, z: seq<Frame<D>>, hole: int)
    decreases |z|
  {
    if |z| == 0 then true
    else
      var f := z[|z| - 1];
      LinkedPath(nodes, z[..|z| - 1], f.id) && f.id < |nodes|
      && Holds(nodes[f.id], if f.goLeft then hole else Root(f.sib), f.d, f.bal, if f.goLeft then Root(f.sib) else hole)
      && Linked(nodes, f.sib)
  }

  /** A tree with a hole is represented exactly when its path and its subtree are. */
  lemma {:induction false} LinkedPlug<D>(nodes: seq<AvlNode<D>>, z: seq<Frame<D>>, t: Tree<D>)
    ensures Linked(nodes, Plug(z, t)) <==> LinkedPath(nodes, z, Root(t)) && Linked(nodes, t)
    decreases |z|
  {
    if |z| > 0 {
      LinkedPlug(nodes, z[..|z| - 1], PlugOne(z[|z| - 1], t));
    }
  }

  /** b stores the same records as a at the indices in s. */
  ghost predicate Agree<D>(a: seq<AvlNode<D>>, b: seq<AvlNode<D>>, s: set<nat>) {
    forall i :: i in s && i < |a| ==> i < |b| && b[i] == a[i]
  }

  /** Writes outside a tree's nodes do not disturb its representation. */
  lemma {:induction false} LinkedFrame<D>(a: seq<AvlNode<D>>, b: seq<AvlNode<D>>, t: Tree<D>)
    requires Linked(a, t) && Agree(a, b, Ids(t))
    ensures Linked(b, t)
  {
    match t
    case Leaf =>
    case Node(l, _, _, _, r) =>
      LinkedFrame(a, b, l);
      LinkedFrame(a, b, r);
  }

  /** Writes outside a path's nodes do not disturb its representation. */
  lemma {:induction false} LinkedPathFrame<D>(a: seq<AvlNode<D>>, b: seq<AvlNode<D>>, z: seq<Frame<D>>, hole: int)
    requires LinkedPath(a, z, hole) && Agree(a, b, PathIds(z))
    ensures LinkedPath(b, z, hole)
    decreases |z|
  {
    if |z| > 0 {
      var f := z[|z| - 1];
      LinkedPathFrame(a, b, z[..|z| - 1], f.id);
      LinkedFrame(a, b, f.sib);
    }
  }

  /** An index that is not in t is not t's root pointer. */
  lemma RootNotIn<D>(x: nat, t: Tree<D>)
    requires x !in Ids(t)
    ensures Root(t) != x
  {
  }

  /**
   * Re-pointing the deepest node of a path at a new hole: the single write of
   * its left or right child pointer.
   */
  lemma Retarget<D>(a: seq<AvlNode<D>>, z: seq<Frame<D>>, h: int, h2: int)
    requires |z| > 0 && LinkedPath(a, z, h) && DistinctPath(z)
    ensures z[|z| - 1].id < |a|
    ensures LinkedPath(a[z[|z| - 1].id := WithChild(a[z[|z| - 1].id], z[|z| - 1].goLeft, h2)], z, h2)
  {
    var f := z[|z| - 1];
    var b := a[f.id := WithChild(a[f.id], f.goLeft, h2)];
    LinkedPathFrame(a, b, z[..|z| - 1], f.id);
    LinkedFrame(a, b, f.sib);
  }

  /**
   * Which child pointer of the deepest node leads into the hole: the comparison
   * of the left child pointer with x that the source uses to choose the
   * side to re-point.
   */
  lemma HoleSide<D>(a: seq<AvlNode<D>>, z: seq<Frame<D>>, h: nat)
    requires |z| > 0 && LinkedPath(a, z, h) && h !in Ids(z[|z| - 1].sib)
    ensures z[|z| - 1].id < |a|
    ensures a[z[|z| - 1].id].l == h <==> z[|z| - 1].goLeft
  {
    RootNotIn(h, z[|z| - 1].sib);
  }

  // ------------------------------------------------------------------
  // The allocator's bookkeeping
  // ------------------------------------------------------------------

  /** Flag bit 2: the node is in use. */
  predicate Used<D>(n: AvlNode<D>) { GetBit(n.f, FLG_USD) }

  /** Flag bit 3: the node is the first of its slab, the address given to free. */
  predicate First<D>(n: AvlNode<D>) { GetBit(n.f, FLG_1ST) }

  /** Flag bit 1: the node is marked for release. */
  predicate Marked<D>(n: AvlNode<D>) { GetBit(n.f, FLG_CLN) }

  /** Node i belongs to a live slab. */
  predicate Live(n: nat, live: seq<bool>, i: int) {
    n > 0 && 0 <= i && i / n < |live| && live[i / n]
  }

  /** A sequence without repetitions. */
  ghost predicate NoDup(s: seq<nat>) {
    forall i, j :: 0 <= i < j < |s| ==> s[i] != s[j]
  }

  /**
   * The free stack: `head` and the `r` pointers chain through exactly the
   * indices of `free`, in order, ending in NULL.
   */
  ghost predicate FreeChain<D>(nodes: seq<AvlNode<D>>, head: int, free: seq<nat>) {
    head == Next(free, -1)
    && (forall j :: 0 <= j < |free| ==> free[j] < |nodes|)
    && (forall j {:trigger nodes[free[j]]} :: 0 <= j < |free| ==> nodes[free[j]].r == Next(free, j))
  }

  /** The entry after position j of s (the first one for j = -1), NULL past the end. */
  function Next(s: seq<nat>, j: int): (r: int)
    requires -1 <= j
  {
    if j + 1 < |s| then s[j + 1] else NULL
  }

  /**
   * The allocator's invariant.  Slab k is live when live[k]; every node of
   * a live slab is either in the tree, handed out but not yet linked
   * (`pending`), or on the free stack, and its used bit says which.  Only
   * the first node of a slab carries the first-of-slab bit, and no node is
   * marked for release outside AVL_dealloc.
   */
  ghost predicate Heap<D>(n: nat, nodes: seq<AvlNode<D>>, live: seq<bool>, inTree: set<nat>, free: seq<nat>,
                          pending: set<nat>)
  {
    n > 0 && |nodes| == n * |live| && NoDup(free) && inTree !! pending
    && (forall i :: i in inTree ==> i < |nodes| && Live(n, live, i) && Used(nodes[i]))
    && (forall i :: i in pending ==> i < |nodes| && Live(n, live, i) && Used(nodes[i]))
    && (forall i :: i in free ==> i < |nodes| && Live(n, live, i) && !Used(nodes[i]))
    && (forall i :: 0 <= i < |nodes| && Live(n, live, i) ==> i in inTree || i in pending || i in free)
    && (forall i :: 0 <= i < |nodes| && Live(n, live, i) ==> (First(nodes[i]) <==> i % n == 0) && !Marked(nodes[i]))
  }

  /** Nodes are never both in the tree and free. */
  lemma HeapDisjoint<D>(n: nat, nodes: seq<AvlNode<D>>, live: seq<bool>, inTree: set<nat>, free: seq<nat>,
                        pending: set<nat>, i: nat)
    requires Heap(n, nodes, live, inTree, free, pending)
    ensures i in free ==> i !in inTree && i !in pending
  {
  }

  /** The slab index of a node below n * slabs. */
  lemma SlabIndex(i: int, n: int, slabs: int)
    requires n > 0 && 0 <= i < n * slabs
    ensures 0 <= i / n < slabs
  {
  }

  /** The nodes of slab k are k * n + j for j below n. */
  lemma InSlab(k: int, n: int, j: int)
    requires n > 0 && k >= 0 && 0 <= j < n
    ensures (k * n + j) / n == k && (k * n + j) % n == j
  {
    var i := k * n + j;
    var q, r := i / n, i % n;
    assert q * n + r == i;
    assert (q - k) * n == j - r;
    if q > k {
      MulAtLeast(q - k, n);
    } else if q < k {
      MulAtLeast(k - q, n);
    }
  }

  lemma MulAtLeast(a: int, n: int)
    requires a >= 1 && n > 0
    ensures a * n >= n
  {
  }

  // ------------------------------------------------------------------
  // Allocation (avl.c:103-141)
  // ------------------------------------------------------------------

  /** [base + k - 1, ..., base + 1, base]: the free stack a fresh slab leaves. */
  function Countdown(base: nat, k: nat): (s: seq<nat>)
    ensures |s| == k && forall j :: 0 <= j < k ==> s[j] == base + k - 1 - j
  {
    if k == 0 then [] else [base + k - 1] + Countdown(base, k - 1)
  }

  /**
   * A slab as the allocation loop leaves it: every node's flags cleared but
   * for the first-of-slab bit on node 0, and each node's r pointing to the
   * one pushed before it.
   */
  ghost predicate FreshSlab<D>(nodes: seq<AvlNode<D>>, base: nat, n: nat) {
    |nodes| == base + n
    && forall i :: base <= i < base + n ==>
         nodes[i].f == (if i == base then Bit(FLG_1ST) else 0)
         && nodes[i].r == (if i == base then NULL else i - 1)
  }

  /** The flags of a fresh slab's nodes: free, unmarked, first exactly for node 0. */
  lemma FreshBits()
    ensures !GetBit(0, FLG_USD) && !GetBit(0, FLG_1ST) && !GetBit(0, FLG_CLN)
    ensures !GetBit(Bit(FLG_1ST), FLG_USD) && GetBit(Bit(FLG_1ST), FLG_1ST) && !GetBit(Bit(FLG_1ST), FLG_CLN)
  {
  }

  /** An empty free stack plus a fresh slab: the allocator's invariant again, with the whole slab free. */
  lemma NewSlab<D>(n: nat, nodes: seq<AvlNode<D>>, live: seq<bool>, inTree: set<nat>, nodes': seq<AvlNode<D>>)
    requires Heap(n, nodes, live, inTree, [], {})
    requires |nodes| <= |nodes'| && nodes'[..|nodes|] == nodes && FreshSlab(nodes', |nodes|, n)
    ensures Heap(n, nodes', live + [true], inTree, Countdown(|nodes|, n), {})
    ensures FreeChain(nodes', |nodes| + n - 1, Countdown(|nodes|, n))
    ensures Agree(nodes, nodes', inTree)
  {
    NewSlabHeap(n, nodes, live, inTree, nodes');
    NewSlabChain(nodes', |nodes|, n);
    forall i | i in inTree && i < |nodes| ensures i < |nodes'| && nodes'[i] == nodes[i] {
      assert nodes'[i] == nodes'[..|nodes|][i];
    }
  }

  lemma NewSlabHeap<D>(n: nat, nodes: seq<AvlNode<D>>, live: seq<bool>, inTree: set<nat>, nodes': seq<AvlNode<D>>)
    requires Heap(n, nodes, live, inTree, [], {})
    requires |nodes| <= |nodes'| && nodes'[..|nodes|] == nodes && FreshSlab(nodes', |nodes|, n)
    ensures Heap(n, nodes', live + [true], inTree, Countdown(|nodes|, n), {})
  {
    var base, live', free := |nodes|, live + [true], Countdown(|nodes|, n);
    FreshBits();
    assert |nodes'| == n * |live'|;
    forall i | 0 <= i < base
      ensures i / n < |live| && nodes'[i] == nodes[i] && (Live(n, live', i) <==> Live(n, live, i))
    {
      SlabIndex(i, n, |live|);
      assert nodes'[i] == nodes'[..base][i];
    }
    forall i | base <= i < base + n
      ensures Live(n, live', i) && i % n == i - base && i in free
    {
      InSlab(|live|, n, i - base);
      assert free[base + n - 1 - i] == i;
    }
  }

  lemma NewSlabChain<D>(nodes': seq<AvlNode<D>>, base: nat, n: nat)
    requires n > 0 && FreshSlab(nodes', base, n)
    ensures FreeChain(nodes', base + n - 1, Countdown(base, n))
  {
    var free := Countdown(base, n);
    forall j | 0 <= j < n ensures free[j] < |nodes'| && nodes'[free[j]].r == Next(free, j) {
      assert free[j] == base + n - 1 - j;
      if j + 1 < n {
        assert free[j + 1] == free[j] - 1;
      }
    }
  }

  /** The node handed out by AVL_newNode (avl.c:129-139), with the flag byte it gets. */
  function Handed<D>(f: bv8): (r: AvlNode<D>) {
    AvlNode(NULL, NULL, SetBit(SetBal(f, 0), FLG_USD), None)
  }

  /** A handed-out node is in use and keeps its first-of-slab and release bits. */
  lemma HandedBits<D>(f: bv8)
    ensures var h: AvlNode<D> := Handed(f);
      Used(h) && (First(h) <==> GetBit(f, FLG_1ST)) && (Marked(h) <==> GetBit(f, FLG_CLN)) && GetBal(h.f) == 0
  {
    SetBalKeepsBits(f, 0, FLG_1ST);
    SetBalKeepsBits(f, 0, FLG_CLN);
  }

  /** Popping the free stack hands out a node that is now in use but not yet in the tree. */
  lemma Pop<D>(n: nat, nodes: seq<AvlNode<D>>, live: seq<bool>, inTree: set<nat>, head: int, free: seq<nat>)
    requires Heap(n, nodes, live, inTree, free, {}) && FreeChain(nodes, head, free) && |free| > 0
    ensures var nodes' := nodes[free[0] := Handed(nodes[free[0]].f)];
      Heap(n, nodes', live, inTree, free[1..], {free[0]})
      && FreeChain(nodes', nodes[free[0]].r, free[1..]) && Agree(nodes, nodes', inTree)
  {
    assert free[0] in free;
    PopHeap(n, nodes, live, inTree, free);
    PopChain(nodes, head, free, Handed(nodes[free[0]].f));
  }

  lemma PopHeap<D>(n: nat, nodes: seq<AvlNode<D>>, live: seq<bool>, inTree: set<nat>, free: seq<nat>)
    requires Heap(n, nodes, live, inTree, free, {}) && |free| > 0 && free[0] < |nodes|
    ensures Heap(n, nodes[free[0] := Handed(nodes[free[0]].f)], live, inTree, free[1..], {free[0]})
  {
    var x := free[0];
    var nodes' := nodes[x := Handed(nodes[x].f)];
    var rest := free[1..];
    HandedBits<D>(nodes[x].f);
    assert x in free && x !in inTree;
    assert nodes'[x] == Handed(nodes[x].f);
    assert (First(nodes'[x]) <==> First(nodes[x])) && (Marked(nodes'[x]) <==> Marked(nodes[x]));
    forall i | i in rest ensures i != x && i in free {
      var j :| 0 <= j < |rest| && rest[j] == i;
      assert free[j + 1] == i;
    }
    forall i | i in free && i != x ensures i in rest {
      var j :| 0 <= j < |free| && free[j] == i;
      assert rest[j - 1] == i;
    }
    assert NoDup(rest);
    assert forall i :: i in inTree ==> i < |nodes'| && Live(n, live, i) && Used(nodes'[i]);
    assert forall i :: i in rest ==> i < |nodes'| && Live(n, live, i) && !Used(nodes'[i]);
    assert forall i :: 0 <= i < |nodes'| && Live(n, live, i) ==> i in inTree || i in {x} || i in rest;
  }

  /** Overwriting the top of the free stack leaves the chain below it intact. */
  lemma PopChain<D>(nodes: seq<AvlNode<D>>, head: int, free: seq<nat>, v: AvlNode<D>)
    requires FreeChain(nodes, head, free) && |free| > 0 && NoDup(free)
    ensures FreeChain(nodes[free[0] := v], nodes[free[0]].r, free[1..])
  {
    var nodes', rest := nodes[free[0] := v], free[1..];
    forall j | 0 <= j < |rest| ensures rest[j] < |nodes'| && nodes'[rest[j]].r == Next(rest, j) {
      assert rest[j] == free[j + 1] && free[j + 1] != free[0];
    }
  }

  /**
   * Re-pointing a node of the tree or changing its balance: a write that
   * keeps every flag bit leaves the allocator's invariant and the free
   * stack as they were.
   */
  lemma Relink<D>(n: nat, nodes: seq<AvlNode<D>>, live: seq<bool>, inTree: set<nat>, head: int, free: seq<nat>,
                  pending: set<nat>, m: nat, v: AvlNode<D>)
    requires Heap(n, nodes, live, inTree, free, pending) && FreeChain(nodes, head, free)
    requires m in inTree + pending && Rest(v.f) == Rest(nodes[m].f)
    ensures Heap(n, nodes[m := v], live, inTree, free, pending) && FreeChain(nodes[m := v], head, free)
    ensures Agree(nodes, nodes[m := v], (inTree + pending) - {m})
  {
    RestBits(v.f, nodes[m].f, FLG_USD);
    RestBits(v.f, nodes[m].f, FLG_1ST);
    RestBits(v.f, nodes[m].f, FLG_CLN);
    assert m !in free;
  }

  /** AVL_flush's release of one node (avl.c:187-189): r takes the old head of the free stack, the used bit goes. */
  function Released<D>(x: AvlNode<D>, head: int): (r: AvlNode<D>) {
    x.(r := head, f := ClrBit(x.f, FLG_USD))
  }

  /** Releasing a tree node makes it the new top of the free stack. */
  lemma Release<D>(n: nat, nodes: seq<AvlNode<D>>, live: seq<bool>, inTree: set<nat>, head: int, free: seq<nat>,
                   x: nat)
    requires Heap(n, nodes, live, inTree, free, {}) && FreeChain(nodes, head, free) && x in inTree
    ensures var nodes' := nodes[x := Released(nodes[x], head)];
      Heap(n, nodes', live, inTree - {x}, [x] + free, {}) && FreeChain(nodes', x, [x] + free)
      && Agree(nodes, nodes', inTree - {x})
  {
    var nodes', free' := nodes[x := Released(nodes[x], head)], [x] + free;
    assert x !in free;
    assert nodes'[x].f == ClrBit(nodes[x].f, FLG_USD);
    forall j | 0 <= j < |free'| ensures free'[j] < |nodes'| && nodes'[free'[j]].r == Next(free', j) {
      if j > 0 {
        assert free'[j] == free[j - 1] && free[j - 1] in free;
      }
    }
    forall i | i in free' ensures i == x || i in free {
    }
    assert NoDup(free') by {
      forall i, j | 0 <= i < j < |free'| ensures free'[i] != free'[j] {
        assert free'[j] == free[j - 1] && free[j - 1] in free;
      }
    }
  }

  /**
   * AVL_delete's release of the removed node (avl.c:807-812): as in
   * AVL_flush, and the payload and left pointer are cleared as well.
   */
  function Discarded<D>(x: AvlNode<D>, head: int): (r: AvlNode<D>) {
    Released(x, head).(l := NULL, d := None)
  }

  /** Discarding a tree node, too, makes it the new top of the free stack. */
  lemma Discard<D>(n: nat, nodes: seq<AvlNode<D>>, live: seq<bool>, inTree: set<nat>, head: int, free: seq<nat>,
                   x: nat, rest: set<nat>)
    requires Heap(n, nodes, live, inTree, free, {}) && FreeChain(nodes, head, free) && x in inTree
    requires rest == inTree - {x}
    ensures var nodes' := nodes[x := Discarded(nodes[x], head)];
      Heap(n, nodes', live, rest, [x] + free, {}) && FreeChain(nodes', x, [x] + free) && Agree(nodes, nodes', rest)
  {
    Release(n, nodes, live, inTree, head, free, x);
    var a, b := nodes[x := Released(nodes[x], head)], nodes[x := Discarded(nodes[x], head)];
    forall i | 0 <= i < |b|
      ensures b[i].f == a[i].f && b[i].r == a[i].r && (i != x ==> b[i] == a[i])
      ensures (Used(b[i]) <==> Used(a[i])) && (First(b[i]) <==> First(a[i])) && (Marked(b[i]) <==> Marked(a[i]))
    {
    }
  }

  // ------------------------------------------------------------------
  // Rewriting nodes of the tree in place
  // ------------------------------------------------------------------

  /** Node t of a represented tree, read through its index. */
  lemma LinkedAt<D>(a: seq<AvlNode<D>>, u: seq<Frame<D>>, t: Tree<D>)
    requires t.Node? && Linked(a, Plug(u, t))
    ensures t.id < |a| && Holds(a[t.id], Root(t.left), t.d, t.bal, Root(t.right))
    ensures LinkedPath(a, u, t.id) && Linked(a, t.left) && Linked(a, t.right)
  {
    LinkedPlug(a, u, t);
  }

  /**
   * One record write at the root of subtree t, giving it the links, payload
   * and balance it has in t with its balance replaced by b: the arena then
   * represents the tree with that one balance changed.
   */
  lemma WriteNode<D>(a: seq<AvlNode<D>>, u: seq<Frame<D>>, t: Tree<D>, v: AvlNode<D>, b: int)
    requires t.Node? && t.id < |a| && Linked(a, Plug(u, t)) && Distinct(Plug(u, t))
    requires Holds(v, Root(t.left), t.d, b, Root(t.right))
    ensures Linked(a[t.id := v], Plug(u, t.(bal := b)))
    ensures Distinct(Plug(u, t.(bal := b))) && Ids(Plug(u, t.(bal := b))) == Ids(Plug(u, t))
    ensures t.id in Ids(Plug(u, t)) && Root(Plug(u, t.(bal := b))) == Root(Plug(u, t))
  {
    var a', t' := a[t.id := v], t.(bal := b);
    if |u| > 0 {
      RootPlug(u, t);
      RootPlug(u, t');
    }
    LinkedPlug(a, u, t);
    DistinctPlug(u, t);
    DistinctPlug(u, t');
    IdsPlug(u, t);
    IdsPlug(u, t');
    LinkedPathFrame(a, a', u, t.id);
    LinkedFrame(a, a', t.left);
    LinkedFrame(a, a', t.right);
    LinkedPlug(a', u, t');
  }

  /**
   * b differs from a only at the nodes in s, and nowhere in a flag bit: the
   * effect of re-linking and re-balancing nodes of the tree.
   */
  ghost predicate Reshaped<D>(a: seq<AvlNode<D>>, b: seq<AvlNode<D>>, s: set<nat>) {
    |b| == |a|
    && (forall i :: 0 <= i < |a| && i !in s ==> b[i] == a[i])
    && (forall i :: 0 <= i < |a| ==> Rest(b[i].f) == Rest(a[i].f))
  }

  /** One more write of that kind. */
  lemma ReshapedStep<D>(a0: seq<AvlNode<D>>, a: seq<AvlNode<D>>, s: set<nat>, i: nat, v: AvlNode<D>)
    requires Reshaped(a0, a, s) && i in s && i < |a| && Rest(v.f) == Rest(a[i].f)
    ensures Reshaped(a0, a[i := v], s)
  {
  }

  /** Two rewrites of the same nodes in a row. */
  lemma ReshapedTrans<D>(a: seq<AvlNode<D>>, b: seq<AvlNode<D>>, c: seq<AvlNode<D>>, s: set<nat>, s': set<nat>)
    requires Reshaped(a, b, s) && Reshaped(b, c, s') && s' <= s
    ensures Reshaped(a, c, s)
  {
  }

  /** A rewrite of nodes in s is one of nodes in any larger set. */
  lemma ReshapedWiden<D>(a: seq<AvlNode<D>>, b: seq<AvlNode<D>>, s: set<nat>, s': set<nat>)
    requires Reshaped(a, b, s) && s <= s'
    ensures Reshaped(a, b, s')
  {
  }

  /** Rewriting only nodes in s leaves every node outside s as it was. */
  lemma ReshapedAgree<D>(a: seq<AvlNode<D>>, b: seq<AvlNode<D>>, s: set<nat>, x: set<nat>)
    requires Reshaped(a, b, s) && s !! x
    ensures Agree(a, b, x)
  {
  }

  /** Rewriting nodes of the tree leaves the allocator's invariant and the free stack intact. */
  lemma HeapReshaped<D>(n: nat, a: seq<AvlNode<D>>, b: seq<AvlNode<D>>, live: seq<bool>, inTree: set<nat>,
                        head: int, free: seq<nat>, s: set<nat>)
    requires Heap(n, a, live, inTree, free, {}) && FreeChain(a, head, free) && Reshaped(a, b, s) && s <= inTree
    ensures Heap(n, b, live, inTree, free, {}) && FreeChain(b, head, free)
  {
    forall i | 0 <= i < |a|
      ensures (Used(b[i]) <==> Used(a[i])) && (First(b[i]) <==> First(a[i])) && (Marked(b[i]) <==> Marked(a[i]))
    {
      RestBits(b[i].f, a[i].f, FLG_USD);
      RestBits(b[i].f, a[i].f, FLG_1ST);
      RestBits(b[i].f, a[i].f, FLG_CLN);
    }
    forall j | 0 <= j < |free| ensures b[free[j]] == a[free[j]] {
      assert free[j] in free;
    }
  }

  /** A handed-out node that has been linked into the tree stops being pending. */
  lemma Adopt<D>(n: nat, nodes: seq<AvlNode<D>>, live: seq<bool>, inTree: set<nat>, free: seq<nat>, x: nat)
    requires Heap(n, nodes, live, inTree, free, {x})
    ensures Heap(n, nodes, live, inTree + {x}, free, {})
  {
  }

  // ------------------------------------------------------------------
  // The whole memory of a tree
  // ------------------------------------------------------------------

  /**
   * The arena represents t, each node of t occurs once, the free stack
   * starting at `head` chains through `free`, and every node of a live slab
   * is accounted for.
   */
  ghost predicate Mem<D>(n: nat, nodes: seq<AvlNode<D>>, live: seq<bool>, t: Tree<D>, head: int, free: seq<nat>,
                         pending: set<nat>)
  {
    Linked(nodes, t) && Distinct(t) && FreeChain(nodes, head, free) && Heap(n, nodes, live, Ids(t), free, pending)
  }

  /** AVL_newNode's slab allocation (avl.c:106-126): the whole new slab lands on the free stack, its last node on top. */
  lemma SlabMem<D>(n: nat, nodes: seq<AvlNode<D>>, live: seq<bool>, t: Tree<D>, nodes': seq<AvlNode<D>>)
    requires Mem(n, nodes, live, t, NULL, [], {})
    requires |nodes| <= |nodes'| && nodes'[..|nodes|] == nodes && FreshSlab(nodes', |nodes|, n)
    ensures Mem(n, nodes', live + [true], t, |nodes| + n - 1, Countdown(|nodes|, n), {})
  {
    NewSlab(n, nodes, live, Ids(t), nodes');
    LinkedFrame(nodes, nodes', t);
  }

  /** AVL_newNode's pop (avl.c:129-139): the top of the free stack is handed out, pending until it is linked. */
  lemma PopMem<D>(n: nat, nodes: seq<AvlNode<D>>, live: seq<bool>, t: Tree<D>, head: int, free: seq<nat>)
    requires Mem(n, nodes, live, t, head, free, {}) && head != NULL
    ensures |free| > 0 && head == free[0] && 0 <= head < |nodes|
    ensures Mem(n, nodes[head := Handed(nodes[head].f)], live, t, nodes[head].r, free[1..], {head})
  {
    Pop(n, nodes, live, Ids(t), head, free);
    LinkedFrame(nodes, nodes[head := Handed(nodes[head].f)], t);
  }

  /**
   * The tree t' that replaces t after a rewrite of t's nodes and of the
   * handed-out node x, which it now holds: the memory invariant holds again
   * with nothing pending.
   */
  lemma AdoptMem<D>(n: nat, nodes: seq<AvlNode<D>>, live: seq<bool>, t: Tree<D>, head: int, free: seq<nat>, x: nat,
                    nodes': seq<AvlNode<D>>, t': Tree<D>)
    requires Mem(n, nodes, live, t, head, free, {x})
    requires Reshaped(nodes, nodes', Ids(t) + {x}) && Linked(nodes', t') && Distinct(t') && Ids(t') == Ids(t) + {x}
    ensures Mem(n, nodes', live, t', head, free, {})
  {
    Adopt(n, nodes, live, Ids(t), free, x);
    HeapReshaped(n, nodes, nodes', live, Ids(t) + {x}, head, free, Ids(t) + {x});
  }
}
