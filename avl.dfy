/**
 * AVL_TREE and its operations (avl.h:89-104, avl.c), over the node arena of
 * module Arena.  The ghost field `tree` is the abstract tree the arena
 * represents, `free` the indices on the free stack in stack order.
 *
 * Calls to malloc are modelled by a boolean parameter saying whether the
 * allocation succeeds; free() is modelled by marking a slab dead.
 */
module Avl {
  import opened Flags
  import opened Order
  import opened Trees
  import opened Arena
  import opened Insertion
  import opened Deletion
  import opened Traversal
  import opened Reclaim
  import opened Linking
  import opened Unlinking
  import opened Retrace

  /**
   * The tree invariant on the values of an AVL_TREE's fields: memory with
   * nothing pending, AVL shape, order, and the cached count and height.
   */
  ghost predicate Sound<D(!new)>(allocAtOnce: int, nodes: seq<AvlNode<D>>, live: seq<bool>, tree: Tree<D>, freeStack: int,
                           free: seq<nat>, top: int, size: int, height: int, eval: (D, D) -> int)
  {
    allocAtOnce >= 1 && top == Root(tree) && Mem(allocAtOnce, nodes, live, tree, freeStack, free, {})
    && size == Size(tree) && IsComparator(eval) && AVL(tree) && Ordered(eval, tree) && height == Height(tree)
  }

  class AvlTree<D(!new)> {
    /** Head of the free stack, chained through the nodes' r pointers. */
    var freeStack: int
    /** Nodes per slab. */
    const allocAtOnce: int
    /** The top node, NULL for the empty tree. */
    var top: int
    var height: int
    var size: int
    /** The comparator; the source's user pointer is folded into it. */
    const eval: (D, D) -> int
    /** Every node obtained from malloc, indexed by address. */
    var nodes: seq<AvlNode<D>>
    /** Whether slab k is still allocated. */
    var live: seq<bool>

    ghost var tree: Tree<D>
    ghost var free: seq<nat>

    /**
     * The memory invariant: the arena represents `tree`, each node occurs
     * once, the free stack chains through `free`, and every node of a live
     * slab is in the tree, in `pending` (handed out, not linked yet) or free.
     */
    ghost predicate Store(pending: set<nat>)
      reads this
    {
      allocAtOnce >= 1
      && top == Root(tree)
      && Mem(allocAtOnce, nodes, live, tree, freeStack, free, pending)
    }

    /** The tree invariant between operations: memory, AVL shape, order and the cached height. */
    ghost predicate Valid()
      reads this
    {
      Sound(allocAtOnce, nodes, live, tree, freeStack, free, top, size, height, eval)
    }

    /** The payloads in sorted order. */
    ghost function Contents(): (r: seq<D>)
      reads this
    {
      Inorder(tree)
    }

    /** The zeroed AVL_TREE with its slab size and comparator set (avl.c:89-93). */
    constructor (allocAtOnce: int, eval: (D, D) -> int)
      requires allocAtOnce >= 1 && IsComparator(eval)
      ensures Valid() && tree == Leaf && nodes == [] && live == [] && free == []
      ensures this.allocAtOnce == allocAtOnce && this.eval == eval
    {
      this.freeStack := NULL;
      this.allocAtOnce := allocAtOnce;
      this.top := NULL;
      this.height := 0;
      this.size := 0;
      this.eval := eval;
      this.nodes := [];
      this.live := [];
      this.tree := Leaf;
      this.free := [];
    }

    /**
     * AVL_newTree (avl.c:84-96): NULL when malloc fails, otherwise an empty
     * tree whose slab size is allocAtOnce raised to at least 1.
     */
    static method NewTree(allocAtOnce: int, eval: (D, D) -> int, mallocOk: bool) returns (t: AvlTree?<D>)
      requires IsComparator(eval)
      ensures t == null <==> !mallocOk
      ensures t != null ==> fresh(t) && t.Valid() && t.Contents() == [] && t.size == 0 && t.height == 0
      ensures t != null ==> t.allocAtOnce == (if allocAtOnce < 1 then 1 else allocAtOnce) && t.eval == eval
      ensures t != null ==> t.nodes == [] && t.free == []
    {
      if !mallocOk {
        return null;
      }
      var n := allocAtOnce;
      if n < 1 {
        n := 1;
      }
      t := new AvlTree(n, eval);
    }

    /**
     * The slab allocation of AVL_newNode (avl.c:106-126), once malloc has
     * returned a slab: every node's flags are cleared and the node pushed,
     * so the slab's last node ends on top, and the slab's first node gets
     * the first-of-slab bit.
     */
    method PushSlab()
      requires Store({}) && freeStack == NULL
      modifies this
      ensures Store({}) && tree == old(tree) && size == old(size) && height == old(height) && top == old(top)
      ensures live == old(live) + [true] && |nodes| == |old(nodes)| + allocAtOnce && nodes[..|old(nodes)|] == old(nodes)
      ensures free == Countdown(|old(nodes)|, allocAtOnce) && freeStack == |nodes| - 1
    {
      var base := |nodes|;
      ghost var before := nodes;
      nodes := nodes + seq(allocAtOnce, _ => AvlNode(NULL, NULL, 0, None));
      live := live + [true];
      var i := 0;
      while i < allocAtOnce
        invariant 0 <= i <= allocAtOnce && |nodes| == base + allocAtOnce && nodes[..base] == before
        invariant freeStack == if i == 0 then NULL else base + i - 1
        invariant tree == old(tree) && free == old(free) && live == old(live) + [true]
        invariant top == old(top) && size == old(size) && height == old(height)
        invariant forall j :: base <= j < base + i ==> nodes[j].f == 0 && nodes[j].r == (if j == base then NULL else j - 1)
      {
        nodes := nodes[base + i := nodes[base + i].(f := 0, r := freeStack)];
        freeStack := base + i;
        i := i + 1;
      }
      ghost var pushed := nodes;
      nodes := nodes[base := nodes[base].(f := SetBit(nodes[base].f, FLG_1ST))];
      assert SetBit(0, FLG_1ST) == Bit(FLG_1ST);
      assert FreshSlab(nodes, base, allocAtOnce) by {
        forall i | base <= i < base + allocAtOnce
          ensures nodes[i].f == (if i == base then Bit(FLG_1ST) else 0)
          ensures nodes[i].r == (if i == base then NULL else i - 1)
        {
          assert pushed[i].f == 0;
        }
      }
      assert nodes[..base] == before by {
        assert nodes[..base] == pushed[..base];
      }
      SlabMem(allocAtOnce, before, old(live), tree, nodes);
      free := Countdown(base, allocAtOnce);
    }

    /**
     * AVL_newNode (avl.c:103-141).  When the free stack is empty a slab is
     * obtained and all its nodes pushed, the last one ending on top; then
     * the top of the free stack is popped, cleared, marked used and
     * counted.  It returns NULL, changing nothing, when malloc fails.
     */
    method NewNode(mallocOk: bool) returns (n: int)
      requires Valid()
      modifies this
      ensures n != NULL <==> old(freeStack) != NULL || mallocOk
      ensures n == NULL ==> unchanged(this)
      ensures n != NULL ==> 0 <= n < |nodes| && Store({n as nat})
      ensures n != NULL ==> tree == old(tree) && height == old(height) && size == old(size) + 1
      ensures n != NULL ==> nodes[n].l == NULL && nodes[n].r == NULL && nodes[n].d == None && GetBal(nodes[n].f) == 0
      ensures n != NULL && old(freeStack) != NULL ==>
        |old(free)| > 0 && n == old(free)[0] && free == old(free)[1..] && live == old(live)
        && nodes == old(nodes)[n := Handed(old(nodes)[n].f)]
      ensures n != NULL && old(freeStack) == NULL ==>
        live == old(live) + [true] && |nodes| == |old(nodes)| + allocAtOnce && nodes[..|old(nodes)|] == old(nodes)
        && n == |nodes| - 1 && free == Countdown(|old(nodes)|, allocAtOnce - 1)
    {
      if freeStack == NULL {
        if mallocOk {
          PushSlab();
        }
      }
      n := freeStack;
      if n != NULL {
        ghost var pre := nodes;
        PopMem(allocAtOnce, nodes, live, tree, freeStack, free);
        freeStack := nodes[n].r;
        // l, r and d cleared, balance zeroed, the used bit set: one record write
        nodes := nodes[n := AvlNode(NULL, NULL, SetBit(SetBal(nodes[n].f, 0), FLG_USD), None)];
        HandedBits<D>(pre[n].f);
        size := size + 1;
        free := free[1..];
      }
    }

    /**
     * AVL_find (avl.c:327-352): descend from the top, left when the key
     * sorts before the node's payload, right when after, and return the
     * payload that compares equal, or NULL (None) when the search falls off
     * the tree.
     */
    method Find(k: D) returns (d: Option<D>)
      requires Valid()
      ensures d.None? <==> Absent(eval, Contents(), k)
      ensures d.Some? ==> Same(eval, d.value, k) && d.value in Contents()
    {
      d := None;
      var c := top;
      ghost var sub := tree;
      while d == None && c != NULL
        invariant Linked(nodes, sub) && Ordered(eval, sub)
        invariant d.None? ==> c == Root(sub) && (Absent(eval, Inorder(tree), k) <==> Absent(eval, Inorder(sub), k))
        invariant forall x :: x in Inorder(sub) ==> x in Inorder(tree)
        invariant d.Some? ==> Same(eval, d.value, k) && d.value in Inorder(tree)
        decreases if d.None? then Size(sub) + 1 else 0
      {
        var e := eval(nodes[c].d.value, k);
        if e == 0 {
          d := nodes[c].d;
          c := NULL;
          assert sub.d in Inorder(sub);
        } else if e < 0 {
          SearchStep(eval, sub, k);
          c := nodes[c].l;
          sub := sub.left;
        } else {
          SearchStep(eval, sub, k);
          c := nodes[c].r;
          sub := sub.right;
        }
      }
      if d.None? {
        assert sub == Leaf && Inorder(sub) == [];
      } else {
        ghost var i :| 0 <= i < |Inorder(tree)| && Inorder(tree)[i] == d.value;
        assert Same(eval, Inorder(tree)[i], k);
      }
    }

    /**
     * AVL_insert (avl.c:362-588).  Returns 1, changing nothing, when a
     * payload that compares the same as d is in the tree; 2, changing
     * nothing, when a node is needed and malloc fails; otherwise 0, with d
     * in its sorted place, one node more and the tree still AVL.  The node
     * is taken from the allocator once the search has found the hole, as
     * the source does at A5.
     */
    method Insert(d: D, mallocOk: bool) returns (rc: int)
      requires Valid()
      modifies this
      ensures Valid()
      ensures rc == 0 || rc == 1 || rc == 2
      ensures rc == 1 <==> !Absent(eval, old(Contents()), d)
      ensures rc == 2 <==> Absent(eval, old(Contents()), d) && old(freeStack) == NULL && !mallocOk
      ensures rc != 0 ==> unchanged(this)
      ensures rc == 0 ==> Contents() == InsertSorted(eval, old(Contents()), d) && size == old(size) + 1
      ensures rc == 0 ==> height == old(height) || height == old(height) + 1
      ensures rc == 0 && old(freeStack) != NULL ==>
        |old(free)| > 0 && free == old(free)[1..] && live == old(live) && |nodes| == |old(nodes)|
        && Ids(tree) == Ids(old(tree)) + {old(free)[0]}
      ensures rc == 0 && old(freeStack) == NULL ==>
        free == Countdown(|old(nodes)|, allocAtOnce - 1) && live == old(live) + [true]
        && |nodes| == |old(nodes)| + allocAtOnce && Ids(tree) == Ids(old(tree)) + {|nodes| - 1}
    {
      if top == NULL {
        rc := Plant(d, mallocOk);
      } else {
        rc := Descend(d, mallocOk);
      }
    }

    /**
     * AVL_insert into a non-empty tree (avl.c:388-587): search for d, and
     * hang a new node at the hole when it is not there.
     */
    method Descend(d: D, mallocOk: bool) returns (rc: int)
      requires Valid() && top != NULL
      modifies this
      ensures Valid()
      ensures rc == 0 || rc == 1 || rc == 2
      ensures rc == 1 <==> !Absent(eval, old(Contents()), d)
      ensures rc == 2 <==> Absent(eval, old(Contents()), d) && old(freeStack) == NULL && !mallocOk
      ensures rc != 0 ==> unchanged(this)
      ensures rc == 0 ==> Contents() == InsertSorted(eval, old(Contents()), d) && size == old(size) + 1
      ensures rc == 0 ==> height == old(height) || height == old(height) + 1
      ensures rc == 0 && old(freeStack) != NULL ==>
        |old(free)| > 0 && free == old(free)[1..] && live == old(live) && |nodes| == |old(nodes)|
        && Ids(tree) == Ids(old(tree)) + {old(free)[0]}
      ensures rc == 0 && old(freeStack) == NULL ==>
        free == Countdown(|old(nodes)|, allocAtOnce - 1) && live == old(live) + [true]
        && |nodes| == |old(nodes)| + allocAtOnce && Ids(tree) == Ids(old(tree)) + {|nodes| - 1}
    {
      var found, c, goLeft, b, p, z := SearchHole(eval, nodes, top, d, tree);
      if found {
        return 1;
      }
      rc := Hang(d, mallocOk, c, goLeft, b, p, z);
    }

    /** AVL_insert into the empty tree (avl.c:372-384): the new node becomes the top. */
    method Plant(d: D, mallocOk: bool) returns (rc: int)
      requires Valid() && top == NULL
      modifies this
      ensures Valid()
      ensures rc == 0 || rc == 2
      ensures rc == 2 <==> old(freeStack) == NULL && !mallocOk
      ensures rc == 2 ==> unchanged(this)
      ensures rc == 0 ==> Contents() == [d] && size == old(size) + 1 && height == 1
      ensures rc == 0 && old(freeStack) != NULL ==>
        |old(free)| > 0 && free == old(free)[1..] && live == old(live) && |nodes| == |old(nodes)|
        && Ids(tree) == Ids(old(tree)) + {old(free)[0]}
      ensures rc == 0 && old(freeStack) == NULL ==>
        free == Countdown(|old(nodes)|, allocAtOnce - 1) && live == old(live) + [true]
        && |nodes| == |old(nodes)| + allocAtOnce && Ids(tree) == Ids(old(tree)) + {|nodes| - 1}
    {
      var c := NewNode(mallocOk);
      if c == NULL {
        return 2;
      }
      LeafFacts(nodes[c := nodes[c].(d := Some(d))], c, d);
      var ns := nodes[c := nodes[c].(d := Some(d))];
      PlantSound(allocAtOnce, nodes, live, tree, freeStack, free, size, eval, c, d, ns);
      Install(ns, live, c, freeStack, size, 1, NewLeaf(c, d), free);
      rc := 0;
    }

    /**
     * AVL_insert once the search has ended at the hole z (avl.c:410-423 or
     * 438-451, then 457-585): take a node, hang it there and rebalance.
     */
    method Hang(d: D, mallocOk: bool, c: int, goLeft: bool, b: int, p: int, ghost z: seq<Frame<D>>) returns (rc: int)
      requires Valid() && HoleAt(eval, tree, d, c, goLeft, b, p, z)
      modifies this
      ensures Valid()
      ensures rc == 0 || rc == 2
      ensures rc == 2 <==> old(freeStack) == NULL && !mallocOk
      ensures rc == 2 ==> unchanged(this)
      ensures rc == 0 ==> Contents() == InsertSorted(eval, old(Contents()), d) && size == old(size) + 1
      ensures rc == 0 ==> height == old(height) + (if Grows(z) then 1 else 0)
      ensures rc == 0 && old(freeStack) != NULL ==>
        |old(free)| > 0 && free == old(free)[1..] && live == old(live) && |nodes| == |old(nodes)|
        && Ids(tree) == Ids(old(tree)) + {old(free)[0]}
      ensures rc == 0 && old(freeStack) == NULL ==>
        free == Countdown(|old(nodes)|, allocAtOnce - 1) && live == old(live) + [true]
        && |nodes| == |old(nodes)| + allocAtOnce && Ids(tree) == Ids(old(tree)) + {|nodes| - 1}
    {
      var n := NewNode(mallocOk);
      if n == NULL {
        return 2;
      }
      Attach(n, d, c, goLeft, b, p, z);
      rc := 0;
    }

    /**
     * The rest of AVL_insert once node n has been handed out (avl.c:417-419
     * or 445-447, then 457-585): link it at the hole z and rebalance.
     */
    method Attach(n: int, d: D, c: int, goLeft: bool, b: int, p: int, ghost z: seq<Frame<D>>)
      requires 0 <= n < |nodes| && Store({n as nat}) && HoleAt(eval, tree, d, c, goLeft, b, p, z)
      requires nodes[n].l == NULL && nodes[n].r == NULL && GetBal(nodes[n].f) == 0
      requires size == Size(tree) + 1 && IsComparator(eval) && AVL(tree) && Ordered(eval, tree) && height == Height(tree)
      modifies this
      ensures Valid()
      ensures Contents() == InsertSorted(eval, old(Contents()), d) && size == old(size)
      ensures height == old(height) + (if Grows(z) then 1 else 0)
      ensures free == old(free) && freeStack == old(freeStack) && live == old(live) && |nodes| == |old(nodes)|
      ensures Ids(tree) == Ids(old(tree)) + {n as nat}
    {
      var ns, tp, h := AttachAt(allocAtOnce, nodes, live, tree, freeStack, free, top, size, height, eval,
                                c, goLeft, b, p, n, d, z);
      Install(ns, live, tp, freeStack, size, h, KnuthInsert(z, n, d), free);
    }

    /**
     * AVL_delete (avl.c:613-1174): None when no payload compares the same
     * as k, and then nothing changes; otherwise the stored payload, gone
     * from the tree, whose node is now the top of the free stack with its
     * payload and left link cleared; the slabs stay, the tree stays AVL and
     * its height stays or drops by one.
     */
    method Delete(k: D) returns (d: Option<D>)
      requires Valid() && Height(tree) <= MAX_DEPTH
      modifies this
      ensures Valid()
      ensures d.None? <==> Absent(eval, old(Contents()), k)
      ensures d.None? ==> unchanged(this)
      ensures d.Some? ==> Same(eval, d.value, k) && Contents() == RemoveSame(eval, old(Contents()), k)
      ensures d.Some? ==> size == old(size) - 1 && (height == old(height) || height == old(height) - 1)
      ensures d.Some? ==> d.value in old(Contents()) && 0 <= freeStack < |nodes| == |old(nodes)| && old(nodes)[freeStack].d == d
      ensures d.Some? ==> live == old(live) && free == [freeStack] + old(free) && nodes[freeStack].l == NULL && nodes[freeStack].d == None
    {
      if top == NULL {
        return None;
      }
      d := Take(k);
    }

    /** AVL_delete in a non-empty tree (avl.c:629-1173). */
    method Take(k: D) returns (d: Option<D>)
      requires Valid() && top != NULL && Height(tree) <= MAX_DEPTH
      modifies this
      ensures Valid()
      ensures d.None? <==> Absent(eval, old(Contents()), k)
      ensures d.None? ==> unchanged(this)
      ensures d.Some? ==> Same(eval, d.value, k) && Contents() == RemoveSame(eval, old(Contents()), k)
      ensures d.Some? ==> size == old(size) - 1 && (height == old(height) || height == old(height) - 1)
      ensures d.Some? ==> d.value in old(Contents()) && 0 <= freeStack < |nodes| == |old(nodes)| && old(nodes)[freeStack].d == d
      ensures d.Some? ==> live == old(live) && free == [freeStack] + old(free) && nodes[freeStack].l == NULL && nodes[freeStack].d == None
    {
      var ns, tp, head, sz, ht;
      ghost var t', fr;
      d, ns, tp, head, sz, ht, t', fr := DeleteIn(allocAtOnce, nodes, live, tree, freeStack, free, top, size, height, eval, k);
      if d.Some? {
        Install(ns, live, tp, head, sz, ht, t', fr);
      }
    }

    /** Stores the fields of a tree the invariant holds of. */
    method Install(ns: seq<AvlNode<D>>, lv: seq<bool>, tp: int, head: int, sz: int, ht: int,
                   ghost t: Tree<D>, ghost fr: seq<nat>)
      requires Sound(allocAtOnce, ns, lv, t, head, fr, tp, sz, ht, eval)
      modifies this
      ensures Valid() && nodes == ns && live == lv && top == tp && freeStack == head && size == sz && height == ht
      ensures tree == t && free == fr
    {
      nodes, live, top, freeStack, size, height, tree, free := ns, lv, tp, head, sz, ht, t, fr;
    }

    /**
     * AVL_walk (avl.c:1195-1267): the callback sees the payloads in order;
     * here its calls are collected in `out`, one payload per call.
     */
    method Walk() returns (out: seq<D>)
      requires Valid()
      ensures out <= Contents() && Sorted(eval, out)
      ensures Height(tree) < MAX_DEPTH - 1 ==> out == Contents()
    {
      out := [];
      if top != NULL {
        out := InorderWalk(nodes, top, tree);
      }
      SortedPrefix(eval, Inorder(tree), out);
    }

    /**
     * AVL_flush (avl.c:147-197): every node of the tree goes back onto the
     * free stack, in flush order above the nodes already there, and the tree
     * is empty.  The source's stack of MAX_DEPTH entries holds the path to
     * the current node, so the tree must be at most that high.
     */
    method Flush()
      requires Valid() && Height(tree) <= MAX_DEPTH
      modifies this
      ensures Valid() && tree == Leaf && Contents() == []
      ensures free == FlushOrder(old(tree)) + old(free)
      ensures live == old(live) && |nodes| == |old(nodes)|
      ensures top == NULL && size == 0 && height == 0
    {
      if top == NULL {
        return;
      }
      var ns, head := FlushNodes(allocAtOnce, nodes, live, top, freeStack, tree, free);
      Install(ns, live, NULL, head, 0, 0, Leaf, FlushOrder(tree) + free);
    }

    /**
     * AVL_dealloc (avl.c:206-297): free every slab none of whose nodes is in
     * the tree, taking its nodes off the free stack, and return the number of
     * nodes released.  The tree is untouched.
     */
    method Dealloc() returns (c: int)
      requires Valid()
      modifies this
      ensures Valid() && tree == old(tree) && top == old(top) && size == old(size) && height == old(height)
      ensures |live| == |old(live)|
      ensures forall k :: 0 <= k < |live| ==> (live[k] <==> old(live)[k] && !Idle(allocAtOnce, old(nodes), old(live), k))
      ensures free == Survivors(allocAtOnce, old(nodes), old(live), old(free))
      ensures c == Freed(allocAtOnce, old(live), live)
    {
      var ns, lv, head, cnt := Reclaim.Dealloc(allocAtOnce, nodes, live, tree, freeStack, free);
      Install(ns, lv, top, head, size, height, tree, Survivors(allocAtOnce, nodes, live, free));
      c := cnt;
    }

    /**
     * AVL_destroy (avl.c:304-310): flush, then dealloc.  With the tree empty
     * every slab is idle, so every slab is freed and nothing is left on the
     * free stack.  The final free() of the handle is not modelled.
     */
    method Destroy()
      requires Valid() && Height(tree) <= MAX_DEPTH
      modifies this
      ensures Valid() && tree == Leaf && free == [] && top == NULL && size == 0 && height == 0
      ensures |live| == |old(live)| && forall k :: 0 <= k < |live| ==> !live[k]
    {
      Flush();
      ghost var ns, lv, fr := nodes, live, free;
      EmptyIdle(allocAtOnce, nodes, live, freeStack, free);
      var _ := Dealloc();
    }
  }

  /**
   * The explicit-stack in-order walk of AVL_walk (avl.c:1202-1263) over a
   * non-empty tree.  The stack holds the top node and then every node above
   * the current one c; p is the node the walk came from, which tells whether
   * it has just descended, finished the left subtree or finished c.  Each
   * turn of the loop runs the three sections of the source's loop body in
   * order.  The walk quits early once the stack would reach MAX_DEPTH - 1
   * entries, so it is complete for trees lower than that.
   */
  method InorderWalk<D>(nodes: seq<AvlNode<D>>, top: int, ghost t: Tree<D>) returns (out: seq<D>)
    requires Linked(nodes, t) && Distinct(t) && t.Node? && top == Root(t)
    ensures out <= Inorder(t)
    ensures Height(t) < MAX_DEPTH - 1 ==> out == Inorder(t)
  {
    out := [];
    var stack := new int[MAX_DEPTH];
    var sp := 1;
    stack[0] := top;
    var c := top;
    var p := c;
    ghost var z: seq<Frame<D>> := [];
    ghost var s := t;
    ghost var phase := 0;
    InorderSize(t);
    HeightPlug(z, s);
    while 0 < sp < MAX_DEPTH - 1
      invariant stack.Length == MAX_DEPTH && sp <= MAX_DEPTH - 1
      invariant WalkAt(nodes, t, stack[..], sp, c, p, out, z, s, phase)
      invariant (phase == 1 || phase == 2) ==> p != NULL
      decreases Size(t) - |out|, (if phase == 0 then 2 else if phase == 3 then 0 else 1),
                (if phase == 0 then Height(t) - |z| else |z|)
    {
      sp, c, p, z, s, phase := WalkDown(nodes, stack, sp, c, p, out, t, z, s, phase);
      sp, c, p, out, z, s, phase := WalkVisit(nodes, stack, sp, c, p, out, t, z, s, phase);
      sp, c, p, z, s, phase := WalkUp(nodes, stack, sp, c, p, out, t, z, s, phase);
    }
  }

  /** First section of the walk's loop body: on arrival at c, go down to its left child if it has one. */
  method WalkDown<D>(nodes: seq<AvlNode<D>>, stack: array<int>, sp: int, c: int, p: int, out: seq<D>,
                     ghost t: Tree<D>, ghost z: seq<Frame<D>>, ghost s: Tree<D>, ghost phase: int)
    returns (sp': int, c': int, p': int, ghost z': seq<Frame<D>>, ghost s': Tree<D>, ghost phase': int)
    requires WalkAt(nodes, t, stack[..], sp, c, p, out, z, s, phase)
    requires 0 < sp < stack.Length - 1 && ((phase == 1 || phase == 2) ==> p != NULL)
    modifies stack
    ensures WalkAt(nodes, t, stack[..], sp', c', p', out, z', s', phase')
    ensures phase == 0 ==> (phase' == 0 && sp' == sp + 1 && |z'| == |z| + 1) || (phase' == 1 && sp' == sp && z' == z)
    ensures phase != 0 ==> sp' == sp && p' == p && z' == z && phase' == phase
  {
    sp', c', p', z', s', phase' := sp, c, p, z, s, phase;
    Position(nodes, t, z, s);
    if stack[sp - 1] == p {
      if nodes[c].l != NULL {
        Descend(t, z, s, true);
        stack[sp] := c;
        sp' := sp + 1;
        p' := c;
        c' := nodes[c].l;
        z', s' := z + [Step(s, true)], s.left;
        Position(nodes, t, z', s');
      } else {
        p' := NULL;
        phase' := 1;
      }
    }
  }

  /** Second section: after c's left subtree, hand out c and go down to its right child if it has one. */
  method WalkVisit<D>(nodes: seq<AvlNode<D>>, stack: array<int>, sp: int, c: int, p: int, out: seq<D>,
                      ghost t: Tree<D>, ghost z: seq<Frame<D>>, ghost s: Tree<D>, ghost phase: int)
    returns (sp': int, c': int, p': int, out': seq<D>, ghost z': seq<Frame<D>>, ghost s': Tree<D>, ghost phase': int)
    requires WalkAt(nodes, t, stack[..], sp, c, p, out, z, s, phase)
    requires 0 < sp < stack.Length && (phase == 1 ==> sp < stack.Length - 1) && (phase == 2 ==> p != NULL)
    modifies stack
    ensures WalkAt(nodes, t, stack[..], sp', c', p', out', z', s', phase')
    ensures sp' < stack.Length && phase' != 1 && phase' != 3 && (phase == 2 ==> p' != NULL)
    ensures phase == 1 ==> |out'| == |out| + 1
    ensures phase != 1 ==> sp' == sp && p' == p && out' == out && z' == z && phase' == phase
  {
    sp', c', p', out', z', s', phase' := sp, c, p, out, z, s, phase;
    Position(nodes, t, z, s);
    if p == nodes[c].l {
      out' := out + [nodes[c].d.value];
      if nodes[c].r != NULL {
        Descend(t, z, s, false);
        stack[sp] := c;
        sp' := sp + 1;
        p' := c;
        c' := nodes[c].r;
        z', s', phase' := z + [Step(s, false)], s.right, 0;
        Position(nodes, t, z', s');
      } else {
        p' := NULL;
        phase' := 2;
        VisitedLast(z, s);
      }
    }
  }

  /** Third section: after all of c, pop back to its parent, or finish when the stack runs empty. */
  method WalkUp<D>(nodes: seq<AvlNode<D>>, stack: array<int>, sp: int, c: int, p: int, out: seq<D>,
                   ghost t: Tree<D>, ghost z: seq<Frame<D>>, ghost s: Tree<D>, ghost phase: int)
    returns (sp': int, c': int, p': int, ghost z': seq<Frame<D>>, ghost s': Tree<D>, ghost phase': int)
    requires WalkAt(nodes, t, stack[..], sp, c, p, out, z, s, phase)
    requires 0 < sp < stack.Length && phase != 1
    ensures WalkAt(nodes, t, stack[..], sp', c', p', out, z', s', phase')
    ensures (phase' == 1 || phase' == 2) ==> p' != NULL
    ensures phase == 2 ==> phase' == 3 || (|z'| == |z| - 1 && (phase' == 1 || phase' == 2))
    ensures phase != 2 ==> sp' == sp && p' == p && z' == z && phase' == phase
  {
    sp', c', p', z', s', phase' := sp, c, p, z, s, phase;
    Position(nodes, t, z, s);
    if p == nodes[c].r {
      sp' := sp - 1;
      p' := c;
      c' := stack[sp'];
      if sp' == 0 {
        phase' := 3;
      } else {
        Ascend(t, z, s);
        phase' := if z[|z| - 1].goLeft then 1 else 2;
        z', s' := z[..|z| - 1], PlugOne(z[|z| - 1], s);
      }
    }
  }

  /**
   * The loop of AVL_flush (avl.c:157-192): depth first, left before right,
   * each node is released once both its subtrees are gone, with its
   * parent's pointer to it cut and the node pushed onto the free stack.
   * The stack holds the top node and then the nodes above the current one.
   */
  method FlushNodes<D>(n: nat, nodes: seq<AvlNode<D>>, ghost live: seq<bool>, top: int, head: int,
                       ghost t: Tree<D>, ghost free: seq<nat>) returns (nodes': seq<AvlNode<D>>, head': int)
    requires Mem(n, nodes, live, t, head, free, {}) && t.Node? && top == Root(t) && Height(t) <= MAX_DEPTH
    ensures Mem(n, nodes', live, Leaf, head', FlushOrder(t) + free, {}) && |nodes'| == |nodes|
  {
    nodes', head' := nodes, head;
    var stack := new int[MAX_DEPTH];
    var c := top;
    stack[0] := c;
    var sp := 1;
    ghost var z: seq<Frame<D>>, s, r, fr := [], t, t, free;
    while sp > 0
      invariant stack.Length == MAX_DEPTH && |nodes'| == |nodes|
      invariant FlushAt(n, nodes', live, head', fr, stack[..], sp, c, z, s, r, t, free)
      decreases Size(r), Height(s)
    {
      FlushLook(nodes', stack[..], sp, c, z, s, r, t, fr, free);
      if nodes'[c].l != NULL {
        FlushDown(stack[..], sp, c, z, s, r, t, fr, free, true);
        stack[sp] := c;
        sp := sp + 1;
        c := nodes'[c].l;
        z, s := z + [Step(s, true)], s.left;
      } else if nodes'[c].r != NULL {
        FlushDown(stack[..], sp, c, z, s, r, t, fr, free, false);
        stack[sp] := c;
        sp := sp + 1;
        c := nodes'[c].r;
        z, s := z + [Step(s, false)], s.right;
      } else {
        sp, c, nodes', head', z, s, r, fr := FlushLeaf(n, nodes', live, head', stack, sp, c, t, z, s, r, fr, free);
      }
    }
  }

  /** The pop of AVL_flush (avl.c:176-191): the current node has no children left and is released. */
  method FlushLeaf<D>(n: nat, nodes: seq<AvlNode<D>>, ghost live: seq<bool>, head: int, stack: array<int>, sp: int,
                      c: int, ghost t: Tree<D>, ghost z: seq<Frame<D>>, ghost s: Tree<D>, ghost r: Tree<D>,
                      ghost fr: seq<nat>, ghost free: seq<nat>)
    returns (sp': int, c': int, nodes': seq<AvlNode<D>>, head': int, ghost z': seq<Frame<D>>, ghost s': Tree<D>,
             ghost r': Tree<D>, ghost fr': seq<nat>)
    requires FlushAt(n, nodes, live, head, fr, stack[..], sp, c, z, s, r, t, free) && sp > 0
    requires 0 <= c < |nodes| && nodes[c].l == Root(s.left) == NULL && nodes[c].r == Root(s.right) == NULL
    ensures FlushAt(n, nodes', live, head', fr', stack[..], sp', c', z', s', r', t, free)
    ensures Size(r') < Size(r) && |nodes'| == |nodes|
  {
    ReleaseLeaf(n, nodes, live, head, fr, z, s);
    sp' := sp - 1;
    var m := stack[sp'];
    nodes' := nodes;
    if nodes'[m].l == c {
      nodes' := nodes'[m := nodes'[m].(l := NULL)];
    } else if nodes'[m].r == c {
      nodes' := nodes'[m := nodes'[m].(r := NULL)];
    }
    nodes' := nodes'[c := Released(nodes'[c], head)];
    head' := c;
    c' := m;
    fr', r' := [c] + fr, Plug(z, Leaf);
    if sp' == 0 {
      FlushDone(stack[..], c, z, s, r, t, fr, free);
      z', s' := z, s;
    } else {
      FlushUp(stack[..], sp, c, z, s, r, t, fr, free);
      z', s' := z[..|z| - 1], PlugOne(z[|z| - 1], Leaf);
    }
  }

  /**
   * Attach on the values of the tree's fields: Place, with the height
   * raised by one in case A7.i.
   */
  method AttachAt<D(!new)>(k: int, nodes: seq<AvlNode<D>>, live: seq<bool>, ghost t: Tree<D>, head: int,
                           ghost free: seq<nat>, top: int, size: int, height: int, eval: (D, D) -> int,
                           c: int, goLeft: bool, b: int, p: int, n: int, d: D, ghost z: seq<Frame<D>>)
    returns (nodes': seq<AvlNode<D>>, top': int, height': int)
    requires 0 <= n < |nodes| && k >= 1 && top == Root(t) && Mem(k, nodes, live, t, head, free, {n as nat})
    requires HoleAt(eval, t, d, c, goLeft, b, p, z)
    requires nodes[n].l == NULL && nodes[n].r == NULL && GetBal(nodes[n].f) == 0
    requires size == Size(t) + 1 && IsComparator(eval) && AVL(t) && Ordered(eval, t) && height == Height(t)
    ensures Sound(k, nodes', live, KnuthInsert(z, n, d), head, free, top', size, height', eval)
    ensures Inorder(KnuthInsert(z, n, d)) == InsertSorted(eval, Inorder(t), d)
    ensures height' == height + (if Grows(z) then 1 else 0)
    ensures |nodes'| == |nodes| && Ids(KnuthInsert(z, n, d)) == Ids(t) + {n as nat}
  {
    var grew;
    nodes', top', grew := Place(eval, nodes, top, c, goLeft, b, p, n, d, z);
    InsertSound(k, nodes, live, t, head, free, size, height, eval, z, n, d, nodes', top', grew);
    height' := if grew then height + 1 else height;
  }

  /** The empty tree with the handed-out node c, holding d, as its top. */
  lemma PlantSound<D(!new)>(k: int, nodes: seq<AvlNode<D>>, live: seq<bool>, tree: Tree<D>, head: int, free: seq<nat>,
                      size: int, eval: (D, D) -> int, c: int, d: D, ns: seq<AvlNode<D>>)
    requires 0 <= c < |nodes| && k >= 1 && tree == Leaf && Mem(k, nodes, live, tree, head, free, {c as nat})
    requires size == 1 && IsComparator(eval)
    requires nodes[c].l == NULL && nodes[c].r == NULL && GetBal(nodes[c].f) == 0
    requires ns == nodes[c := nodes[c].(d := Some(d))]
    ensures Sound(k, ns, live, NewLeaf(c, d), head, free, c, size, 1, eval)
  {
    assert Reshaped(nodes, ns, {c});
    LeafFacts(ns, c, d);
    AdoptMem(k, nodes, live, Leaf, head, free, c, ns, NewLeaf(c, d));
  }

  /** The tree Place builds, with the handed-out node n now in it, is sound again. */
  lemma InsertSound<D(!new)>(k: int, nodes: seq<AvlNode<D>>, live: seq<bool>, t: Tree<D>, head: int, free: seq<nat>,
                             size: int, height: int, eval: (D, D) -> int, z: seq<Frame<D>>, n: int, d: D,
                             ns: seq<AvlNode<D>>, tp: int, grew: bool)
    requires k >= 1 && 0 <= n && Mem(k, nodes, live, t, head, free, {n as nat}) && size == Size(t) + 1
    requires IsComparator(eval) && AVL(t) && Ordered(eval, t) && height == Height(t)
    requires t == Plug(z, Leaf) && |z| > 0 && SearchPath(eval, z, d)
    requires Reshaped(nodes, ns, Ids(t) + {n}) && Linked(ns, KnuthInsert(z, n, d))
    requires tp == Root(KnuthInsert(z, n, d)) && grew == Grows(z)
    ensures Sound(k, ns, live, KnuthInsert(z, n, d), head, free, tp, size, if grew then height + 1 else height, eval)
    ensures Inorder(KnuthInsert(z, n, d)) == InsertSorted(eval, Inorder(t), d)
    ensures Ids(KnuthInsert(z, n, d)) == Ids(t) + {n}
  {
    InsertResult(eval, z, n, d);
    AdoptMem(k, nodes, live, t, head, free, n, ns, KnuthInsert(z, n, d));
  }

  /**
   * AVL_delete on the values of the tree's fields, for a non-empty tree
   * (avl.c:629-1173): the search, then Remove and the height update.
   */
  method DeleteIn<D(!new)>(n: int, nodes: seq<AvlNode<D>>, live: seq<bool>, ghost t: Tree<D>, head: int,
                           ghost free: seq<nat>, top: int, size: int, height: int, eval: (D, D) -> int, key: D)
    returns (d: Option<D>, nodes': seq<AvlNode<D>>, top': int, head': int, size': int, height': int,
             ghost t': Tree<D>, ghost free': seq<nat>)
    requires Sound(n, nodes, live, t, head, free, top, size, height, eval) && t.Node? && Height(t) <= MAX_DEPTH
    ensures d.None? <==> Absent(eval, Inorder(t), key)
    ensures d.Some? ==> Sound(n, nodes', live, t', head', free', top', size', height', eval) && size' == size - 1
    ensures d.Some? ==> Same(eval, d.value, key) && Inorder(t') == RemoveSame(eval, Inorder(t), key)
    ensures d.Some? ==> height' == height || height' == height - 1
    ensures d.Some? ==> d.value in Inorder(t) && 0 <= head' < |nodes| && nodes[head'].d == d
    ensures d.Some? ==> free' == [head'] + free && |nodes'| == |nodes| && nodes'[head'].l == NULL && nodes'[head'].d == None
  {
    var stack := new int[MAX_DEPTH];
    var c, p, sp;
    ghost var z, s;
    d, c, p, sp, z, s := SearchKey(eval, nodes, top, key, t, stack);
    if d.None? {
      nodes', top', head', size', height', t', free' := nodes, top, head, size, height, t, free;
      return;
    }
    var h;
    nodes', top', h := Remove(n, nodes, live, t, head, free, top, stack, sp, c, p, z, s);
    head', size', height' := c, size - 1, if h < 0 then height - 1 else height;
    t', free' := KnuthDelete(z, s).t, [s.id] + free;
    DeleteSound(n, nodes, live, t, head, free, top, size, height, eval, key, z, s, nodes', top', h);
    assert s.d in Inorder(t) && nodes[c].d == Some(s.d) by {
      InorderPlug(z, s);
      assert Inorder(s) == Inorder(s.left) + [s.d] + Inorder(s.right);
      LinkedAt(nodes, z, s);
    }
  }

  /**
   * AVL_delete once the search has found the key at node c, the top of s
   * below path z (avl.c:670-1162): splice the node out of the tree, put it
   * on the free stack, and rebalance upwards.  The arena then holds the
   * tree KnuthDelete describes, with c on top of the free stack.
   */
  method Remove<D>(n: nat, nodes: seq<AvlNode<D>>, live: seq<bool>, ghost t: Tree<D>, head: int,
                   ghost free: seq<nat>, top: int, stack: array<int>, sp: int, c: int, p: int,
                   ghost z: seq<Frame<D>>, ghost s: Tree<D>)
    returns (nodes': seq<AvlNode<D>>, top': int, h: int)
    requires Mem(n, nodes, live, t, head, free, {}) && AVL(t) && top == Root(t)
    requires t == Plug(z, s) && s.Node? && c == s.id && p == (if |z| == 0 then NULL else z[|z| - 1].id)
    requires stack.Length == MAX_DEPTH && sp == |z| < MAX_DEPTH && Stacked(stack[..], z) && stack[sp] == c
    requires Height(t) <= MAX_DEPTH
    modifies stack
    ensures Mem(n, nodes', live, KnuthDelete(z, s).t, c, [c] + free, {})
    ensures top' == Root(KnuthDelete(z, s).t) && h == KnuthDelete(z, s).h
    ensures 0 <= c < |nodes'| && nodes'[c].l == NULL && nodes'[c].d == None
  {
    ghost var r := KnuthDelete(z, s);
    var nodes1, tp, h1, sp1 := Excise(n, nodes, live, t, head, free, top, stack, sp, c, p, z, s);
    nodes', top', h := Unwind(nodes1, tp, h1, stack, sp1, z, s);
    HeapReshaped(n, nodes1, nodes', live, Ids(r.t), c, [c] + free, Ids(r.t));
    KnuthDeleteDistinct(z, s);
    assert c !in Ids(r.t);
  }

  /**
   * The first half of Remove (avl.c:670-813): node c leaves the tree, by
   * the one-child or the two-child splice, and goes on top of the free
   * stack; the arena then holds the spliced tree the retrace starts from.
   */
  method Excise<D>(n: nat, nodes: seq<AvlNode<D>>, live: seq<bool>, ghost t: Tree<D>, head: int,
                   ghost free: seq<nat>, top: int, stack: array<int>, sp: int, c: int, p: int,
                   ghost z: seq<Frame<D>>, ghost s: Tree<D>)
    returns (nodes': seq<AvlNode<D>>, top': int, h: int, sp': int)
    requires Mem(n, nodes, live, t, head, free, {}) && AVL(t) && top == Root(t)
    requires t == Plug(z, s) && s.Node? && c == s.id && p == (if |z| == 0 then NULL else z[|z| - 1].id)
    requires stack.Length == MAX_DEPTH && sp == |z| < MAX_DEPTH && Stacked(stack[..], z) && stack[sp] == c
    requires Height(t) <= MAX_DEPTH
    modifies stack
    ensures Spliced(nodes', top', h, Splice(z, s).0, Splice(z, s).1)
    ensures sp' == |Splice(z, s).0| && Stacked(stack[..], Splice(z, s).0)
    ensures Heap(n, nodes', live, Ids(KnuthDelete(z, s).t), [c] + free, {}) && FreeChain(nodes', c, [c] + free)
    ensures 0 <= c < |nodes'| && nodes'[c].l == NULL && nodes'[c].d == None
  {
    ghost var rest := Ids(KnuthDelete(z, s).t);
    assert c in Ids(t) && rest == Ids(t) - {c} by {
      KnuthDeleteDistinct(z, s);
      IdsPlug(z, s);
    }
    var nodes1;
    nodes1, top', h, sp' := Unhook(nodes, top, stack, sp, c, p, z, s);
    HeapReshaped(n, nodes, nodes1, live, Ids(t), head, free, Ids(t));
    nodes' := nodes1[c := Discarded(nodes1[c], head)];
    Discard(n, nodes1, live, Ids(t), head, free, c, rest);
    SplicedFrame(nodes1, nodes', top', h, z, s);
  }

  /** The splice of avl.c:670-801: the one-child case, or the two-child one. */
  method Unhook<D>(nodes: seq<AvlNode<D>>, top: int, stack: array<int>, sp: int, c: int, p: int,
                   ghost z: seq<Frame<D>>, ghost s: Tree<D>)
    returns (nodes': seq<AvlNode<D>>, top': int, h: int, sp': int)
    requires Linked(nodes, Plug(z, s)) && Distinct(Plug(z, s)) && AVL(Plug(z, s)) && top == Root(Plug(z, s))
    requires s.Node? && c == s.id && p == (if |z| == 0 then NULL else z[|z| - 1].id)
    requires stack.Length == MAX_DEPTH && sp == |z| < MAX_DEPTH && Stacked(stack[..], z) && stack[sp] == c
    requires Height(Plug(z, s)) <= MAX_DEPTH
    modifies stack
    ensures Spliced(nodes', top', h, Splice(z, s).0, Splice(z, s).1)
    ensures sp' == |Splice(z, s).0| && Stacked(stack[..], Splice(z, s).0)
    ensures Reshaped(nodes, nodes', Ids(Plug(z, s)))
  {
    LinkedAt(nodes, z, s);
    if nodes[c].l == NULL || nodes[c].r == NULL {
      assert |z| > 0 ==> -1 <= z[|z| - 1].bal <= 1 by {
        if |z| > 0 {
          assert z[..|z| - 1] + [z[|z| - 1]] == z;
          LastBalanced(z[..|z| - 1], z[|z| - 1], s);
        }
      }
      nodes', top', h := SpliceOne(nodes, top, c, p, z, s);
      sp' := sp;
      IdsPlug(z, s);
      ReshapedWiden(nodes, nodes', PathIds(z), Ids(Plug(z, s)));
    } else {
      nodes', top', h, sp' := SpliceTwo(nodes, top, stack, sp, c, p, z, s);
    }
  }

  /**
   * The tree AVL_delete leaves is sound again, with one node fewer and the
   * height lowered when h is -1, and holds the old payloads without the
   * one the search found.
   */
  lemma DeleteSound<D(!new)>(k: int, nodes: seq<AvlNode<D>>, live: seq<bool>, t: Tree<D>, head: int, free: seq<nat>,
                             top: int, size: int, height: int, eval: (D, D) -> int, key: D,
                             z: seq<Frame<D>>, s: Tree<D>, nodes': seq<AvlNode<D>>, top': int, h: int)
    requires Sound(k, nodes, live, t, head, free, top, size, height, eval)
    requires t == Plug(z, s) && s.Node? && Same(eval, s.d, key)
    requires Mem(k, nodes', live, KnuthDelete(z, s).t, s.id, [s.id] + free, {})
    requires top' == Root(KnuthDelete(z, s).t) && h == KnuthDelete(z, s).h
    ensures Sound(k, nodes', live, KnuthDelete(z, s).t, s.id, [s.id] + free, top', size - 1,
                  if h < 0 then height - 1 else height, eval)
    ensures Inorder(KnuthDelete(z, s).t) == RemoveSame(eval, Inorder(t), key)
    ensures h == 0 || h == -1
  {
    DeleteContents(eval, z, s, key);
  }

  /**
   * What AVL_delete does to the payloads: the one compared the same as the
   * key leaves, the rest stay in order, and the tree stays AVL.
   */
  lemma DeleteContents<D(!new)>(eval: (D, D) -> int, z: seq<Frame<D>>, s: Tree<D>, key: D)
    requires IsComparator(eval) && s.Node? && AVL(Plug(z, s)) && Ordered(eval, Plug(z, s)) && Same(eval, s.d, key)
    ensures Inorder(KnuthDelete(z, s).t) == RemoveSame(eval, Inorder(Plug(z, s)), key)
    ensures Size(KnuthDelete(z, s).t) == Size(Plug(z, s)) - 1
    ensures AVL(KnuthDelete(z, s).t) && Ordered(eval, KnuthDelete(z, s).t)
    ensures Height(KnuthDelete(z, s).t) == Height(Plug(z, s)) + KnuthDelete(z, s).h
    ensures KnuthDelete(z, s).h == 0 || KnuthDelete(z, s).h == -1
  {
    var t, r := Plug(z, s), KnuthDelete(z, s).t;
    var l, m := PathLeft(z) + Inorder(s.left), Inorder(s.right) + PathRight(z);
    assert Inorder(t) == l + [s.d] + m && Inorder(r) == l + m && Ordered(eval, r) by {
      KnuthDeleteCorrect(eval, z, s);
      Regroup(PathLeft(z), Inorder(s.left), [s.d], Inorder(s.right), PathRight(z));
      Halves(PathLeft(z), Inorder(s.left), Inorder(s.right), PathRight(z));
    }
    KnuthDeleteShape(z, s);
    SortedParts(eval, l, s.d, m);
    RemoveSameSplit(eval, l, s.d, m, key);
    InorderSize(t);
    InorderSize(r);
  }

  lemma LeafFacts<D>(ns: seq<AvlNode<D>>, c: nat, d: D)
    requires c < |ns| && ns[c].l == NULL && ns[c].r == NULL && GetBal(ns[c].f) == 0 && ns[c].d == Some(d)
    ensures Linked(ns, NewLeaf(c, d)) && Ids(NewLeaf(c, d)) == {c} && Distinct(NewLeaf(c, d))
    ensures Height(NewLeaf(c, d)) == 1 && Size(NewLeaf(c, d)) == 1 && Inorder(NewLeaf(c, d)) == [d]
  {
  }
}
