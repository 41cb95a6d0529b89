/**
 * Slab reclamation, AVL_dealloc (avl.c:206-297).  A slab can be handed
 * back to free() once none of its nodes is in use: then all of them are on
 * the free stack.  The first pass walks the free stack and, at each slab's
 * first node, scans the slab, marking its nodes for release and keeping the
 * marks only when the whole slab is unused; such slabs are chained through
 * their first nodes' l pointers.  The second pass unlinks the marked nodes
 * from the free stack and the last loop frees the chained slabs.
 */
module Reclaim {
  import opened Flags
  import opened Trees
  import opened Arena

  /** Slab k is live and none of its nodes is in use. */
  ghost predicate Idle<D>(n: nat, nodes: seq<AvlNode<D>>, live: seq<bool>, k: int) {
    n > 0 && 0 <= k < |live| && live[k] && forall i :: 0 <= i < |nodes| && i / n == k ==> !Used(nodes[i])
  }

  /** The free stack without the nodes of idle slabs, in the same order. */
  ghost function Survivors<D>(n: nat, nodes: seq<AvlNode<D>>, live: seq<bool>, s: seq<nat>): (r: seq<nat>)
    requires n > 0
    ensures forall y :: y in r <==> y in s && !Idle(n, nodes, live, y / n)
    ensures NoDup(s) ==> NoDup(r)
  {
    if |s| == 0 then []
    else
      var x := s[|s| - 1];
      var rest := Survivors(n, nodes, live, s[..|s| - 1]);
      assert s == s[..|s| - 1] + [x];
      assert NoDup(s) ==> x !in s[..|s| - 1];
      if Idle(n, nodes, live, x / n) then rest else rest + [x]
  }

  /**
   * What the second pass leaves of a chain s: the entries whose node does
   * not carry the release mark, in the same order.
   */
  ghost function Unmarked<D>(nodes: seq<AvlNode<D>>, s: seq<nat>): (r: seq<nat>)
    requires forall i :: 0 <= i < |s| ==> s[i] < |nodes|
    ensures forall y :: y in r <==> y in s && !Marked(nodes[y])
    ensures NoDup(s) ==> NoDup(r)
  {
    if |s| == 0 then []
    else
      var x := s[|s| - 1];
      var rest := Unmarked(nodes, s[..|s| - 1]);
      assert s == s[..|s| - 1] + [x];
      assert NoDup(s) ==> x !in s[..|s| - 1];
      if Marked(nodes[x]) then rest else rest + [x]
  }

  /** Dropping the marked entries is dropping the entries of idle slabs, when the marks are exactly those. */
  lemma {:induction false} UnmarkedSurvivors<D>(n: nat, nodes: seq<AvlNode<D>>, live: seq<bool>, marked: seq<AvlNode<D>>,
                                                s: seq<nat>)
    requires n > 0 && forall i :: 0 <= i < |s| ==> s[i] < |marked| && (Marked(marked[s[i]]) <==> Idle(n, nodes, live, s[i] / n))
    ensures Unmarked(marked, s) == Survivors(n, nodes, live, s)
    decreases |s|
  {
    if |s| > 0 {
      UnmarkedSurvivors(n, nodes, live, marked, s[..|s| - 1]);
    }
  }

  /** The number of live slabs. */
  function Count(live: seq<bool>): (c: nat)
    ensures c <= |live|
  {
    if |live| == 0 then 0 else (if live[0] then 1 else 0) + Count(live[1..])
  }

  /** The number of nodes in the slabs that went from live to dead, n to a slab. */
  function Freed(n: int, before: seq<bool>, after: seq<bool>): (r: int) {
    n * (Count(before) - Count(after))
  }

  lemma FreedCount(n: int, before: seq<bool>, after: seq<bool>, m: int)
    requires Count(after) + m == Count(before)
    ensures Freed(n, before, after) == n * m
  {
  }

  /** Freeing a live slab lowers the count by one. */
  lemma {:induction false} CountKill(live: seq<bool>, k: nat)
    requires k < |live| && live[k]
    ensures Count(live[k := false]) == Count(live) - 1
    decreases |live|
  {
    if k > 0 {
      assert live[k := false][1..] == live[1..][k - 1 := false];
      CountKill(live[1..], k - 1);
    }
  }

  /** The node with its release mark set (AVL_setbit(f, AVL_FLG_CLN)). */
  function Mark<D>(x: AvlNode<D>): (r: AvlNode<D>) {
    x.(f := SetBit(x.f, FLG_CLN))
  }

  /** The node with its release mark cleared (AVL_clrbit(f, AVL_FLG_CLN)). */
  function Unmark<D>(x: AvlNode<D>): (r: AvlNode<D>) {
    x.(f := ClrBit(x.f, FLG_CLN))
  }

  /** The index of the first node of y's slab. */
  lemma SlabStart(y: int, n: int, x: int)
    requires n > 0 && x >= 0 && x % n == 0
    ensures (x <= y < x + n) <==> y >= 0 && y - y % n == x
    ensures x <= y < x + n ==> y / n == x / n
  {
    if x <= y < x + n {
      InSlab(x / n, n, y - x);
    }
  }

  /** A slab's first node and the n nodes after it lie within the arena. */
  lemma SlabEnd(x: int, n: int, slabs: int)
    requires n > 0 && 0 <= x < n * slabs && x % n == 0
    ensures x + n <= n * slabs
  {
    var k := x / n;
    assert x == k * n;
    if k + 1 > slabs {
      MulAtLeast(k + 1 - slabs, n);
    }
    assert (k + 1) * n <= slabs * n by {
      if k + 1 < slabs {
        MulAtLeast(slabs - k - 1, n);
      }
    }
  }

  /** The nodes of slab k are exactly the n nodes from its first one on. */
  lemma SlabNodes(i: int, n: int, x: int)
    requires n > 0 && x >= 0 && x % n == 0 && i >= 0
    ensures i / n == x / n <==> x <= i < x + n
  {
    SlabStart(i, n, x);
    if i / n == x / n {
      assert i - i % n == x;
    }
  }

  /**
   * The first scan of a slab (avl.c:227-239): from the slab's first node x
   * on, count the nodes not in use and mark each for release, bailing out at
   * the first node in use.
   */
  method CheckSlab<D>(n: nat, nodes: seq<AvlNode<D>>, x: nat) returns (nodes': seq<AvlNode<D>>, j: nat)
    requires x + n <= |nodes|
    ensures |nodes'| == |nodes| && j <= n
    ensures forall y :: x <= y < x + j ==> !Used(nodes[y])
    ensures j < n ==> Used(nodes[x + j])
    ensures forall y :: 0 <= y < |nodes| ==> nodes'[y] == if x <= y < x + j then Mark(nodes[y]) else nodes[y]
  {
    nodes' := nodes;
    j := 0;
    var i := 0;
    while i < n
      invariant 0 <= j <= n && j <= i <= n + 1 && |nodes'| == |nodes|
      invariant i <= n ==> j == i
      invariant j < i ==> i == n + 1 && j < n && Used(nodes[x + j])
      invariant forall y :: x <= y < x + j ==> !Used(nodes[y])
      invariant forall y :: 0 <= y < |nodes| ==> nodes'[y] == if x <= y < x + j then Mark(nodes[y]) else nodes[y]
    {
      if !GetBit(nodes'[x + i].f, FLG_USD) {
        j := j + 1;
        nodes' := nodes'[x + i := Mark(nodes'[x + i])];
      } else {
        i := n;
      }
      i := i + 1;
    }
  }

  /** The undo for a slab that stays (avl.c:250-254): clear the release mark of each of its nodes. */
  method ClearSlab<D>(n: nat, nodes: seq<AvlNode<D>>, x: nat) returns (nodes': seq<AvlNode<D>>)
    requires x + n <= |nodes|
    ensures |nodes'| == |nodes|
    ensures forall y :: 0 <= y < |nodes| ==> nodes'[y] == if x <= y < x + n then Unmark(nodes[y]) else nodes[y]
  {
    nodes' := nodes;
    var i := 0;
    while i < n
      invariant 0 <= i <= n && |nodes'| == |nodes|
      invariant forall y :: 0 <= y < |nodes| ==> nodes'[y] == if x <= y < x + i then Unmark(nodes[y]) else nodes[y]
    {
      nodes' := nodes'[x + i := Unmark(nodes'[x + i])];
      i := i + 1;
    }
  }

  /**
   * What the first pass leaves: every node of a slab whose first node is in
   * L carries the release mark, the first nodes in L have new l pointers,
   * and nothing else changes.
   */
  ghost predicate Marking<D>(n: nat, nodes: seq<AvlNode<D>>, nodes': seq<AvlNode<D>>, L: seq<nat>) {
    n > 0 && |nodes'| == |nodes| && forall y :: 0 <= y < |nodes| ==> MarkedAt(n, nodes[y], nodes'[y], y, L)
  }

  /** Node y before (a) and after (b) the first pass. */
  ghost predicate MarkedAt<D>(n: nat, a: AvlNode<D>, b: AvlNode<D>, y: int, L: seq<nat>)
    requires n > 0
  {
    b.r == a.r && b.d == a.d && (y !in L ==> b.l == a.l)
    && b.f == if y - y % n in L then SetBit(a.f, FLG_CLN) else a.f
  }

  /** The l pointers chain from l through exactly the first nodes in L. */
  ghost predicate SlabChain<D>(nodes: seq<AvlNode<D>>, l: int, L: seq<nat>) {
    l == Next(L, -1) && forall m :: 0 <= m < |L| ==> L[m] < |nodes| && nodes[L[m]].l == Next(L, m)
  }

  lemma MulSucc(a: int, n: int)
    ensures n * (a + 1) == n * a + n
  {
  }

  /** A slab's nodes are untouched by the first pass until its first node x is reached. */
  lemma Untouched<D>(n: nat, nodes0: seq<AvlNode<D>>, nodes: seq<AvlNode<D>>, L: seq<nat>, x: nat)
    requires Marking(n, nodes0, nodes, L) && x % n == 0 && x !in L && forall z :: z in L ==> z % n == 0
    ensures forall y :: x <= y < x + n && y < |nodes0| ==> nodes[y] == nodes0[y]
  {
    forall y | x <= y < x + n && y < |nodes0| ensures nodes[y] == nodes0[y] {
      SlabStart(y, n, x);
      assert y !in L by {
        if y in L {
          SlabStart(y, n, y);
        }
      }
    }
  }

  /** The scan's stopping point decides whether the slab of x is idle. */
  lemma IdleScan<D>(n: nat, nodes0: seq<AvlNode<D>>, live: seq<bool>, x: nat, j: nat)
    requires n > 0 && x % n == 0 && x + n <= |nodes0| && x / n < |live| && live[x / n] && j <= n
    requires forall y :: x <= y < x + j ==> !Used(nodes0[y])
    requires j < n ==> Used(nodes0[x + j])
    ensures Idle(n, nodes0, live, x / n) <==> j == n
  {
    forall i | 0 <= i < |nodes0| && i / n == x / n ensures x <= i < x + n {
      SlabNodes(i, n, x);
    }
    if j < n {
      SlabStart(x + j, n, x);
    }
  }

  /** Keeping the marks of the slab of x and chaining x in front of L. */
  lemma MarkSlab<D>(n: nat, nodes0: seq<AvlNode<D>>, nodes: seq<AvlNode<D>>, marked: seq<AvlNode<D>>,
                    L: seq<nat>, x: nat, l: int)
    requires Marking(n, nodes0, nodes, L) && SlabChain(nodes, l, L) && forall z :: z in L ==> z % n == 0
    requires x % n == 0 && x + n <= |nodes0| && x !in L
    requires forall y :: x <= y < x + n ==> nodes[y] == nodes0[y]
    requires |marked| == |nodes|
    requires forall y :: 0 <= y < |nodes| ==> marked[y] == if x <= y < x + n then Mark(nodes[y]) else nodes[y]
    ensures Marking(n, nodes0, marked[x := marked[x].(l := l)], [x] + L)
    ensures SlabChain(marked[x := marked[x].(l := l)], x, [x] + L)
  {
    var nodes' := marked[x := marked[x].(l := l)];
    forall y | 0 <= y < |nodes0| ensures MarkedAt(n, nodes0[y], nodes'[y], y, [x] + L) {
      SlabStart(y, n, x);
    }
    forall m | 0 <= m < |L| ensures !(x <= L[m] < x + n) {
      assert L[m] in L;
      SlabStart(L[m], n, L[m]);
      SlabStart(L[m], n, x);
    }
  }

  /** Clearing the marks again gives back the slab as it was before the scan. */
  lemma UnmarkSlab<D>(n: nat, nodes: seq<AvlNode<D>>, marked: seq<AvlNode<D>>, cleared: seq<AvlNode<D>>, x: nat, j: nat)
    requires x + n <= |nodes| && j <= n && |marked| == |nodes| && |cleared| == |nodes|
    requires forall y :: x <= y < x + n ==> !Marked(nodes[y])
    requires forall y :: 0 <= y < |nodes| ==> marked[y] == if x <= y < x + j then Mark(nodes[y]) else nodes[y]
    requires forall y :: 0 <= y < |nodes| ==> cleared[y] == if x <= y < x + n then Unmark(marked[y]) else marked[y]
    ensures cleared == nodes
  {
    forall y | x <= y < x + n ensures cleared[y] == nodes[y] {
      ClrUnset(nodes[y].f, FLG_CLN);
    }
  }

  /**
   * One slab of the first pass (avl.c:219-255): x, on the free stack, is the
   * first node of its slab.  When none of the slab's nodes is in use their
   * marks stay and the slab is chained onto l, with n more nodes counted;
   * otherwise the marks are cleared again.
   */
  method ScanSlab<D>(n: nat, ghost nodes0: seq<AvlNode<D>>, ghost live: seq<bool>, ghost inTree: set<nat>,
                     ghost free: seq<nat>, nodes: seq<AvlNode<D>>, x: nat, l: int, c: int, ghost L: seq<nat>)
    returns (nodes': seq<AvlNode<D>>, l': int, c': int, ghost L': seq<nat>)
    requires Heap(n, nodes0, live, inTree, free, {}) && x in free && x % n == 0 && x !in L
    requires Marking(n, nodes0, nodes, L) && SlabChain(nodes, l, L) && c == n * |L|
    requires forall z :: z in L ==> z % n == 0
    ensures Marking(n, nodes0, nodes', L') && SlabChain(nodes', l', L') && c' == n * |L'|
    ensures L' == if Idle(n, nodes0, live, x / n) then [x] + L else L
  {
    assert x < |nodes0| && Live(n, live, x);
    SlabEnd(x, n, |live|);
    Untouched(n, nodes0, nodes, L, x);
    var j;
    nodes', j := CheckSlab(n, nodes, x);
    IdleScan(n, nodes0, live, x, j);
    if j == n {
      MarkSlab(n, nodes0, nodes, nodes', L, x, l);
      nodes' := nodes'[x := nodes'[x].(l := l)];
      l' := x;
      c' := c + n;
      L' := [x] + L;
      MulSucc(|L|, n);
    } else {
      assert forall y :: x <= y < x + n ==> !Marked(nodes[y]) by {
        forall y | x <= y < x + n ensures !Marked(nodes[y]) {
          SlabStart(y, n, x);
          assert Live(n, live, y);
        }
      }
      var cleared := ClearSlab(n, nodes', x);
      UnmarkSlab(n, nodes, nodes', cleared, x, j);
      nodes', l', c', L' := cleared, l, c, L;
    }
  }

  /** An entry of a list without repeats does not occur before its position. */
  lemma FreshEntry(s: seq<nat>, j: int)
    requires NoDup(s) && 0 <= j < |s|
    ensures s[j] !in s[..j]
  {
  }

  lemma NoDupCons(x: nat, s: seq<nat>)
    requires NoDup(s) && x !in s
    ensures NoDup([x] + s)
  {
    assert forall i :: 0 <= i < |s| ==> ([x] + s)[i + 1] == s[i] && s[i] in s;
  }

  /** The state of the first pass before position j of the free stack. */
  ghost predicate MarkAt<D>(n: nat, nodes: seq<AvlNode<D>>, live: seq<bool>, inTree: set<nat>, head: int, free: seq<nat>,
                            nodes': seq<AvlNode<D>>, l: int, c: int, L: seq<nat>, q: int, j: int)
  {
    Heap(n, nodes, live, inTree, free, {}) && FreeChain(nodes, head, free)
    && 0 <= j <= |free| && q == Next(free, j - 1)
    && Marking(n, nodes, nodes', L) && SlabChain(nodes', l, L) && c == n * |L| && NoDup(L)
    && forall x :: x in L <==> x in free[..j] && x % n == 0 && Idle(n, nodes, live, x / n)
  }

  /** What the step at position j reads off the state: q is a free node, not yet in L, first of its slab exactly when its bit says so. */
  lemma MarkLook<D>(n: nat, nodes: seq<AvlNode<D>>, live: seq<bool>, inTree: set<nat>, head: int, free: seq<nat>,
                    nodes': seq<AvlNode<D>>, l: int, c: int, L: seq<nat>, q: int, j: int)
    requires MarkAt(n, nodes, live, inTree, head, free, nodes', l, c, L, q, j) && q != NULL
    ensures j < |free| && q == free[j] && q in free && q !in L && 0 <= q < |nodes'|
    ensures GetBit(nodes'[q].f, FLG_1ST) <==> q % n == 0
  {
    assert j < |free| && q == free[j] && q in free;
    FreshEntry(free, j);
    assert Live(n, live, q) && q < |nodes|;
    assert MarkedAt(n, nodes[q], nodes'[q], q, L);
    if q - q % n in L {
      assert GetBit(SetBit(nodes[q].f, FLG_CLN), FLG_1ST) <==> GetBit(nodes[q].f, FLG_1ST);
    }
  }

  /** The state after the step at position j, given what the slab scan (if any) returned. */
  lemma MarkNext<D>(n: nat, nodes: seq<AvlNode<D>>, live: seq<bool>, inTree: set<nat>, head: int, free: seq<nat>,
                    nodes': seq<AvlNode<D>>, l: int, c: int, L: seq<nat>, q: int, j: int,
                    nodes'': seq<AvlNode<D>>, l': int, c': int, L': seq<nat>)
    requires MarkAt(n, nodes, live, inTree, head, free, nodes', l, c, L, q, j) && j < |free| && q == free[j] && q !in L
    requires Marking(n, nodes, nodes'', L') && SlabChain(nodes'', l', L') && c' == n * |L'|
    requires L' == if q % n == 0 && Idle(n, nodes, live, q / n) then [q] + L else L
    ensures q < |nodes''| && MarkAt(n, nodes, live, inTree, head, free, nodes'', l', c', L', nodes''[q].r, j + 1)
  {
    if L' != L {
      NoDupCons(q, L);
    }
    assert q < |nodes| && nodes''[q].r == nodes[q].r == Next(free, j) by {
      assert q in free;
      MarkingAt(n, nodes, nodes'', L', q);
    }
    MarkMembers(n, nodes, live, free, L, q, j, L');
  }

  /** The first-of-slab nodes of idle slabs seen so far, one position further. */
  lemma MarkMembers<D>(n: nat, nodes: seq<AvlNode<D>>, live: seq<bool>, free: seq<nat>, L: seq<nat>, q: nat, j: nat,
                       L': seq<nat>)
    requires j < |free| && q == free[j] && n > 0
    requires forall x :: x in L <==> x in free[..j] && x % n == 0 && Idle(n, nodes, live, x / n)
    requires L' == if q % n == 0 && Idle(n, nodes, live, q / n) then [q] + L else L
    ensures forall x :: x in L' <==> x in free[..j + 1] && x % n == 0 && Idle(n, nodes, live, x / n)
  {
    assert free[..j + 1] == free[..j] + [q];
  }

  lemma MarkingAt<D>(n: nat, nodes: seq<AvlNode<D>>, nodes': seq<AvlNode<D>>, L: seq<nat>, y: nat)
    requires Marking(n, nodes, nodes', L) && y < |nodes|
    ensures MarkedAt(n, nodes[y], nodes'[y], y, L)
  {
  }

  /** One step of the first pass: the node q at position j of the free stack. */
  method MarkStep<D>(n: nat, ghost nodes: seq<AvlNode<D>>, ghost live: seq<bool>, ghost inTree: set<nat>, ghost head: int,
                     ghost free: seq<nat>, nodes': seq<AvlNode<D>>, l: int, c: int, ghost L: seq<nat>, q: int, ghost j: int)
    returns (nodes'': seq<AvlNode<D>>, l': int, c': int, ghost L': seq<nat>, q': int)
    requires MarkAt(n, nodes, live, inTree, head, free, nodes', l, c, L, q, j) && q != NULL
    ensures j < |free| && MarkAt(n, nodes, live, inTree, head, free, nodes'', l', c', L', q', j + 1)
  {
    MarkLook(n, nodes, live, inTree, head, free, nodes', l, c, L, q, j);
    nodes'', l', c', L' := nodes', l, c, L;
    if GetBit(nodes'[q].f, FLG_1ST) {
      nodes'', l', c', L' := ScanSlab(n, nodes, live, inTree, free, nodes', q, l, c, L);
    }
    MarkNext(n, nodes, live, inTree, head, free, nodes', l, c, L, q, j, nodes'', l', c', L');
    q' := nodes''[q].r;
  }

  /**
   * The first pass of AVL_dealloc (avl.c:216-258): walk the free stack,
   * scanning the slab of each first-of-slab node met.  Afterwards L, chained
   * from l, holds exactly the first nodes of the idle slabs, their nodes
   * are marked, and c counts their nodes.
   */
  method MarkIdle<D>(n: nat, nodes: seq<AvlNode<D>>, ghost live: seq<bool>, ghost inTree: set<nat>, head: int,
                     ghost free: seq<nat>)
    returns (nodes': seq<AvlNode<D>>, l: int, c: int, ghost L: seq<nat>)
    requires Heap(n, nodes, live, inTree, free, {}) && FreeChain(nodes, head, free)
    ensures Marking(n, nodes, nodes', L) && SlabChain(nodes', l, L) && c == n * |L| && NoDup(L)
    ensures forall x :: x in L <==> x in free && x % n == 0 && Idle(n, nodes, live, x / n)
  {
    nodes', l, c, L := nodes, NULL, 0, [];
    var q := head;
    ghost var j := 0;
    assert Marking(n, nodes, nodes', L) by {
      forall y | 0 <= y < |nodes| ensures MarkedAt(n, nodes[y], nodes'[y], y, L) {
      }
    }
    while q != NULL
      invariant MarkAt(n, nodes, live, inTree, head, free, nodes', l, c, L, q, j)
      decreases |free| - j
    {
      nodes', l, c, L, q := MarkStep(n, nodes, live, inTree, head, free, nodes', l, c, L, q, j);
      j := j + 1;
    }
    assert j == |free| && free[..j] == free;
  }

  /**
   * The state of the second pass before position j of the free stack: K
   * holds the nodes kept so far, chained from head' through their r
   * pointers, the last of them (p) pointing at q, and only their r
   * pointers differ from the original.
   */
  ghost predicate UnlinkAt<D>(nodes: seq<AvlNode<D>>, free: seq<nat>, nodes': seq<AvlNode<D>>, head': int, q: int, p: int,
                              j: int, K: seq<nat>)
  {
    FreeChain(nodes, Next(free, -1), free) && NoDup(free)
    && 0 <= j <= |free| && q == Next(free, j - 1) && |nodes'| == |nodes|
    && K == Unmarked(nodes, free[..j]) && (forall m :: 0 <= m < |K| ==> K[m] < |nodes|)
    && head' == (if |K| == 0 then q else K[0]) && p == (if |K| == 0 then NULL else K[|K| - 1])
    && (forall m :: 0 <= m < |K| - 1 ==> nodes'[K[m]].r == K[m + 1])
    && (|K| > 0 ==> nodes'[K[|K| - 1]].r == q)
    && (forall y :: 0 <= y < |nodes| ==> nodes'[y] == nodes[y].(r := nodes'[y].r))
    && (forall y :: 0 <= y < |nodes| && y !in K ==> nodes'[y] == nodes[y])
  }

  /** One step of the second pass: unlink q when it is marked, otherwise keep it. */
  method UnlinkStep<D>(ghost nodes: seq<AvlNode<D>>, ghost free: seq<nat>, nodes': seq<AvlNode<D>>, head': int, q: int,
                       p: int, ghost j: int, ghost K: seq<nat>)
    returns (nodes'': seq<AvlNode<D>>, head'': int, q': int, p': int, ghost K': seq<nat>)
    requires UnlinkAt(nodes, free, nodes', head', q, p, j, K) && q != NULL
    ensures j < |free| && UnlinkAt(nodes, free, nodes'', head'', q', p', j + 1, K')
  {
    UnlinkNext(nodes, free, nodes', head', q, p, j, K);
    K' := Unmarked(nodes, free[..j + 1]);
    nodes'', head'', p' := nodes', head', p;
    if GetBit(nodes'[q].f, FLG_CLN) {
      if p != NULL {
        nodes'' := nodes'[p := nodes'[p].(r := nodes'[q].r)];
      } else {
        head'' := nodes'[q].r;
      }
      q' := nodes''[q].r;
      SkipStep(nodes, free, nodes', head', q, p, j, K, nodes'', head'');
    } else {
      p' := q;
      q' := nodes''[q].r;
      KeepStep(nodes, free, nodes', head', q, p, j, K);
    }
  }

  /** What the second pass knows of the entry q it is at. */
  lemma UnlinkNext<D>(nodes: seq<AvlNode<D>>, free: seq<nat>, nodes': seq<AvlNode<D>>, head': int, q: int, p: int,
                      j: int, K: seq<nat>)
    requires UnlinkAt(nodes, free, nodes', head', q, p, j, K) && q != NULL
    ensures j < |free| && q == free[j] && nodes'[q] == nodes[q] && q !in K && NoDup(K)
    ensures Unmarked(nodes, free[..j + 1]) == K + (if Marked(nodes[q]) then [] else [q])
    ensures nodes[q].r == Next(free, j)
  {
    FreshEntry(free, j);
    assert free[..j + 1] == free[..j] + [q];
    UnmarkedSnoc(nodes, free[..j], q);
    NoDupPrefix(free, j);
  }

  lemma NoDupPrefix(s: seq<nat>, j: nat)
    requires NoDup(s) && j <= |s|
    ensures NoDup(s[..j])
  {
    forall a, b | 0 <= a < b < j ensures s[..j][a] != s[..j][b] {
      assert s[..j][a] == s[a] && s[..j][b] == s[b];
    }
  }

  /** Unlinking the marked entry q keeps the second pass's state. */
  lemma SkipStep<D>(nodes: seq<AvlNode<D>>, free: seq<nat>, nodes': seq<AvlNode<D>>, head': int, q: int, p: int,
                    j: int, K: seq<nat>, nodes'': seq<AvlNode<D>>, head'': int)
    requires UnlinkAt(nodes, free, nodes', head', q, p, j, K) && j < |free| && q == free[j]
    requires nodes'[q] == nodes[q] && q !in K && NoDup(K) && Marked(nodes[q]) && nodes[q].r == Next(free, j)
    requires Unmarked(nodes, free[..j + 1]) == K
    requires p != NULL ==> nodes'' == nodes'[p := nodes'[p].(r := nodes'[q].r)] && head'' == head'
    requires p == NULL ==> nodes'' == nodes' && head'' == nodes'[q].r
    ensures UnlinkAt(nodes, free, nodes'', head'', nodes''[q].r, p, j + 1, K)
  {
    if |K| > 0 {
      assert p == K[|K| - 1] && p in K;
      forall m | 0 <= m < |K| - 1 ensures nodes''[K[m]].r == K[m + 1] {
        assert K[m] != p;
      }
    }
  }

  /** Keeping the unmarked entry q appends it to the kept nodes. */
  lemma KeepStep<D>(nodes: seq<AvlNode<D>>, free: seq<nat>, nodes': seq<AvlNode<D>>, head': int, q: int, p: int,
                    j: int, K: seq<nat>)
    requires UnlinkAt(nodes, free, nodes', head', q, p, j, K) && j < |free| && q == free[j]
    requires nodes'[q] == nodes[q] && q !in K && !Marked(nodes[q]) && nodes[q].r == Next(free, j)
    requires Unmarked(nodes, free[..j + 1]) == K + [q]
    ensures UnlinkAt(nodes, free, nodes', head', nodes'[q].r, q, j + 1, K + [q])
  {
    var K' := K + [q];
    forall m | 0 <= m < |K'| - 1 ensures nodes'[K'[m]].r == K'[m + 1] {
      if m < |K| - 1 {
        assert K'[m] == K[m] && K'[m + 1] == K[m + 1];
      }
    }
  }

  /**
   * The second pass of AVL_dealloc (avl.c:264-284): walk the free stack
   * again and unlink every marked node, keeping p as the last node kept.
   * Only r pointers change, and only those of kept nodes.
   */
  method Unlink<D>(nodes: seq<AvlNode<D>>, head: int, ghost free: seq<nat>) returns (nodes': seq<AvlNode<D>>, head': int)
    requires FreeChain(nodes, head, free) && NoDup(free)
    ensures FreeChain(nodes', head', Unmarked(nodes, free))
    ensures |nodes'| == |nodes| && forall y :: 0 <= y < |nodes| ==> nodes'[y] == nodes[y].(r := nodes'[y].r)
    ensures forall y :: 0 <= y < |nodes| && y !in Unmarked(nodes, free) ==> nodes'[y] == nodes[y]
  {
    nodes', head' := nodes, head;
    var q, p := head, NULL;
    ghost var j := 0;
    ghost var K: seq<nat> := [];
    while q != NULL
      invariant UnlinkAt(nodes, free, nodes', head', q, p, j, K)
      decreases |free| - j
    {
      nodes', head', q, p, K := UnlinkStep(nodes, free, nodes', head', q, p, j, K);
      j := j + 1;
    }
    assert free[..j] == free;
  }

  /** Unmarked extended by one entry. */
  lemma UnmarkedSnoc<D>(nodes: seq<AvlNode<D>>, s: seq<nat>, x: nat)
    requires (forall i :: 0 <= i < |s| ==> s[i] < |nodes|) && x < |nodes|
    ensures Unmarked(nodes, s + [x]) == Unmarked(nodes, s) + (if Marked(nodes[x]) then [] else [x])
  {
    assert (s + [x])[..|s|] == s;
  }

  lemma DivNat(x: int, n: int)
    requires x >= 0 && n > 0
    ensures x / n >= 0
  {
  }

  /** Distinct entries of L lie in distinct slabs. */
  ghost predicate SlabsApart(n: nat, L: seq<nat>)
    requires n > 0
  {
    forall a, b :: 0 <= a < b < |L| ==> L[a] / n != L[b] / n
  }

  /**
   * The last loop of AVL_dealloc (avl.c:286-292): walk the chain of first
   * nodes through their l pointers and free each slab.  Each pointer handed
   * to free must be a live slab of its own, as the source demands.
   */
  method FreeSlabs<D>(n: nat, nodes: seq<AvlNode<D>>, live: seq<bool>, l: int, ghost L: seq<nat>) returns (live': seq<bool>)
    requires n > 0 && SlabChain(nodes, l, L) && SlabsApart(n, L)
    requires forall m :: 0 <= m < |L| ==> Live(n, live, L[m])
    ensures |live'| == |live| && Count(live') + |L| == Count(live)
    ensures forall k :: 0 <= k < |live| ==> (live'[k] <==> live[k] && forall m :: 0 <= m < |L| ==> L[m] / n != k)
  {
    live' := live;
    var q := l;
    ghost var i := 0;
    while q != NULL
      invariant 0 <= i <= |L| && q == Next(L, i - 1) && |live'| == |live| && Count(live') + i == Count(live)
      invariant forall k :: 0 <= k < |live| ==> (live'[k] <==> live[k] && forall m :: 0 <= m < i ==> L[m] / n != k)
      decreases |L| - i
    {
      var x := q;
      q := nodes[q].l;
      DivNat(x, n);
      CountKill(live', x / n);
      live' := live'[x / n := false];
      i := i + 1;
    }
  }

  // ------------------------------------------------------------------
  // What the three passes achieve together
  // ------------------------------------------------------------------

  /** The first node of y's slab. */
  lemma SlabHead(y: int, n: int)
    requires y >= 0 && n > 0
    ensures 0 <= y - y % n <= y && (y - y % n) % n == 0 && (y - y % n) / n == y / n && y - y % n == (y / n) * n
  {
    DivNat(y, n);
    assert y == (y / n) * n + y % n;
    InSlab(y / n, n, 0);
  }

  /** The first node of an idle slab is on the free stack. */
  lemma IdleHead<D>(n: nat, nodes: seq<AvlNode<D>>, live: seq<bool>, inTree: set<nat>, free: seq<nat>, k: int)
    requires Heap(n, nodes, live, inTree, free, {}) && Idle(n, nodes, live, k)
    ensures k * n in free && (k * n) % n == 0 && (k * n) / n == k
  {
    InSlab(k, n, 0);
    MulAtLeast(|live| - k, n);
    assert (|live| - k) * n == |live| * n - k * n;
    assert Live(n, live, k * n) && !Used(nodes[k * n]);
  }

  /** After the first pass a free node carries the release mark exactly when its slab is idle. */
  lemma MarkedIdle<D>(n: nat, nodes: seq<AvlNode<D>>, live: seq<bool>, inTree: set<nat>, free: seq<nat>,
                      nodes1: seq<AvlNode<D>>, L: seq<nat>, y: nat)
    requires Heap(n, nodes, live, inTree, free, {}) && Marking(n, nodes, nodes1, L)
    requires forall x :: x in L <==> x in free && x % n == 0 && Idle(n, nodes, live, x / n)
    requires y in free
    ensures y < |nodes1| && (Marked(nodes1[y]) <==> Idle(n, nodes, live, y / n))
  {
    assert y < |nodes| && Live(n, live, y) && !Marked(nodes[y]);
    assert MarkedAt(n, nodes[y], nodes1[y], y, L);
    SlabHead(y, n);
    if Idle(n, nodes, live, y / n) {
      IdleHead(n, nodes, live, inTree, free, y / n);
      assert y - y % n in L;
    }
  }

  /** The chained first nodes name live slabs, one each, so each may be handed to free once. */
  lemma IdleSlabs<D>(n: nat, nodes: seq<AvlNode<D>>, live: seq<bool>, L: seq<nat>, free: seq<nat>)
    requires n > 0 && NoDup(L) && forall x :: x in L <==> x in free && x % n == 0 && Idle(n, nodes, live, x / n)
    ensures SlabsApart(n, L) && forall m :: 0 <= m < |L| ==> Live(n, live, L[m])
  {
    forall m | 0 <= m < |L| ensures Live(n, live, L[m]) && L[m] == (L[m] / n) * n {
      assert L[m] in L;
      SlabHead(L[m], n);
    }
  }

  /** The slabs the last loop frees are exactly the idle ones. */
  lemma FreedIdle<D>(n: nat, nodes: seq<AvlNode<D>>, live: seq<bool>, inTree: set<nat>, free: seq<nat>, L: seq<nat>,
                     live': seq<bool>)
    requires Heap(n, nodes, live, inTree, free, {})
    requires forall x :: x in L <==> x in free && x % n == 0 && Idle(n, nodes, live, x / n)
    requires |live'| == |live| && forall k :: 0 <= k < |live| ==> (live'[k] <==> live[k] && forall m :: 0 <= m < |L| ==> L[m] / n != k)
    ensures forall k :: 0 <= k < |live| ==> (live'[k] <==> live[k] && !Idle(n, nodes, live, k))
  {
    forall k | 0 <= k < |live| ensures live'[k] <==> live[k] && !Idle(n, nodes, live, k) {
      if Idle(n, nodes, live, k) {
        IdleHead(n, nodes, live, inTree, free, k);
        assert k * n in L;
        var m :| 0 <= m < |L| && L[m] == k * n;
      }
      if exists m :: 0 <= m < |L| && L[m] / n == k {
        var m :| 0 <= m < |L| && L[m] / n == k;
        assert L[m] in L;
      }
    }
  }

  /** A node of a slab that survives keeps its flags through both passes, and a node in use keeps everything. */
  lemma Kept<D>(n: nat, nodes: seq<AvlNode<D>>, live: seq<bool>, inTree: set<nat>, free: seq<nat>,
                nodes1: seq<AvlNode<D>>, L: seq<nat>, nodes2: seq<AvlNode<D>>, i: int)
    requires Heap(n, nodes, live, inTree, free, {}) && Marking(n, nodes, nodes1, L)
    requires forall x :: x in L <==> x in free && x % n == 0 && Idle(n, nodes, live, x / n)
    requires |nodes2| == |nodes1| && forall y :: 0 <= y < |nodes1| ==> nodes2[y] == nodes1[y].(r := nodes2[y].r)
    requires forall y :: 0 <= y < |nodes1| && y !in free ==> nodes2[y] == nodes1[y]
    requires 0 <= i < |nodes| && Live(n, live, i) && !Idle(n, nodes, live, i / n)
    ensures nodes2[i].f == nodes[i].f && (i !in free ==> nodes2[i] == nodes[i])
  {
    SlabHead(i, n);
    assert MarkedAt(n, nodes[i], nodes1[i], i, L);
    assert i !in L;
  }

  /** The allocator's invariant after AVL_dealloc, from what the passes keep. */
  lemma ReclaimHeap<D>(n: nat, nodes: seq<AvlNode<D>>, live: seq<bool>, inTree: set<nat>, free: seq<nat>,
                       nodes2: seq<AvlNode<D>>, live2: seq<bool>)
    requires Heap(n, nodes, live, inTree, free, {}) && |nodes2| == |nodes|
    requires |live2| == |live| && forall k :: 0 <= k < |live| ==> (live2[k] <==> live[k] && !Idle(n, nodes, live, k))
    requires forall i :: 0 <= i < |nodes| && Live(n, live2, i) ==>
      Live(n, live, i) && !Idle(n, nodes, live, i / n) && nodes2[i].f == nodes[i].f
    requires forall i :: i in inTree ==> i < |nodes| && Live(n, live2, i)
    ensures Heap(n, nodes2, live2, inTree, Survivors(n, nodes, live, free), {})
  {
    var S := Survivors(n, nodes, live, free);
    ReclaimFree(n, nodes, live, inTree, free, nodes2, live2);
    ReclaimCover(n, nodes, live, inTree, free, nodes2, live2);
  }

  /** The surviving free nodes are live and free after AVL_dealloc, and the tree's nodes still in use. */
  lemma ReclaimFree<D>(n: nat, nodes: seq<AvlNode<D>>, live: seq<bool>, inTree: set<nat>, free: seq<nat>,
                       nodes2: seq<AvlNode<D>>, live2: seq<bool>)
    requires n > 0 && |nodes2| == |nodes| && forall i :: i in free ==> i < |nodes| && Live(n, live, i) && !Used(nodes[i])
    requires forall i :: i in inTree ==> i < |nodes| && Used(nodes[i])
    requires |live2| == |live| && forall k :: 0 <= k < |live| ==> (live2[k] <==> live[k] && !Idle(n, nodes, live, k))
    requires forall i :: 0 <= i < |nodes| && Live(n, live2, i) ==>
      Live(n, live, i) && !Idle(n, nodes, live, i / n) && nodes2[i].f == nodes[i].f
    requires forall i :: i in inTree ==> i < |nodes| && Live(n, live2, i)
    ensures forall i :: i in Survivors(n, nodes, live, free) ==> i < |nodes2| && Live(n, live2, i) && !Used(nodes2[i])
    ensures forall i :: i in inTree ==> i < |nodes2| && Live(n, live2, i) && Used(nodes2[i])
  {
    forall i | i in Survivors(n, nodes, live, free) ensures i < |nodes2| && Live(n, live2, i) && !Used(nodes2[i]) {
      assert i in free && Live(n, live, i) && i < |nodes|;
      assert !Idle(n, nodes, live, i / n);
      assert live2[i / n];
      assert nodes2[i].f == nodes[i].f;
    }
    forall i | i in inTree ensures i < |nodes2| && Live(n, live2, i) && Used(nodes2[i]) {
      assert nodes2[i].f == nodes[i].f;
    }
  }

  /** Every live node after AVL_dealloc is in the tree or a survivor, with its flags as before. */
  lemma ReclaimCover<D>(n: nat, nodes: seq<AvlNode<D>>, live: seq<bool>, inTree: set<nat>, free: seq<nat>,
                        nodes2: seq<AvlNode<D>>, live2: seq<bool>)
    requires Heap(n, nodes, live, inTree, free, {}) && |nodes2| == |nodes|
    requires forall i :: 0 <= i < |nodes| && Live(n, live2, i) ==>
      Live(n, live, i) && !Idle(n, nodes, live, i / n) && nodes2[i].f == nodes[i].f
    ensures forall i :: 0 <= i < |nodes2| && Live(n, live2, i) ==>
      i in inTree || i in Survivors(n, nodes, live, free)
    ensures forall i :: 0 <= i < |nodes2| && Live(n, live2, i) ==> (First(nodes2[i]) <==> i % n == 0) && !Marked(nodes2[i])
  {
    forall i | 0 <= i < |nodes2| && Live(n, live2, i)
      ensures (i in inTree || i in Survivors(n, nodes, live, free))
      ensures (First(nodes2[i]) <==> i % n == 0) && !Marked(nodes2[i])
    {
      assert Live(n, live, i) && !Idle(n, nodes, live, i / n) && nodes2[i].f == nodes[i].f;
    }
  }

  /**
   * AVL_dealloc (avl.c:206-297) as a whole keeps the memory invariant: the
   * tree is untouched, the free stack is the old one without the nodes of
   * idle slabs, and exactly the idle slabs are dead.
   */
  lemma ReclaimMem<D>(n: nat, nodes: seq<AvlNode<D>>, live: seq<bool>, t: Tree<D>, head: int, free: seq<nat>,
                      nodes1: seq<AvlNode<D>>, L: seq<nat>, nodes2: seq<AvlNode<D>>, head2: int, live2: seq<bool>)
    requires Mem(n, nodes, live, t, head, free, {}) && Marking(n, nodes, nodes1, L)
    requires forall x :: x in L <==> x in free && x % n == 0 && Idle(n, nodes, live, x / n)
    requires FreeChain(nodes2, head2, Unmarked(nodes1, free))
    requires |nodes2| == |nodes1| && forall y :: 0 <= y < |nodes1| ==> nodes2[y] == nodes1[y].(r := nodes2[y].r)
    requires forall y :: 0 <= y < |nodes1| && y !in Unmarked(nodes1, free) ==> nodes2[y] == nodes1[y]
    requires |live2| == |live| && forall k :: 0 <= k < |live| ==> (live2[k] <==> live[k] && !Idle(n, nodes, live, k))
    ensures Mem(n, nodes2, live2, t, head2, Survivors(n, nodes, live, free), {})
  {
    var S := Survivors(n, nodes, live, free);
    forall i | 0 <= i < |free| ensures free[i] < |nodes1| && (Marked(nodes1[free[i]]) <==> Idle(n, nodes, live, free[i] / n)) {
      MarkedIdle(n, nodes, live, Ids(t), free, nodes1, L, free[i]);
    }
    UnmarkedSurvivors(n, nodes, live, nodes1, free);
    assert forall y :: 0 <= y < |nodes1| && y !in free ==> nodes2[y] == nodes1[y];
    forall i | 0 <= i < |nodes| && Live(n, live2, i)
      ensures Live(n, live, i) && !Idle(n, nodes, live, i / n) && nodes2[i].f == nodes[i].f && (i !in free ==> nodes2[i] == nodes[i])
    {
      DivNat(i, n);
      assert live2[i / n];
      Kept(n, nodes, live, Ids(t), free, nodes1, L, nodes2, i);
    }
    forall i | i in Ids(t) ensures i < |nodes| && Live(n, live2, i) && nodes2[i] == nodes[i] {
      assert Used(nodes[i]) && Live(n, live, i);
      DivNat(i, n);
    }
    ReclaimHeap(n, nodes, live, Ids(t), free, nodes2, live2);
    LinkedFrame(nodes, nodes2, t);
  }

  /** With no idle slab the free stack survives whole. */
  lemma {:induction false} SurvivorsAll<D>(n: nat, nodes: seq<AvlNode<D>>, live: seq<bool>, s: seq<nat>)
    requires n > 0 && forall i :: 0 <= i < |s| ==> !Idle(n, nodes, live, s[i] / n)
    ensures Survivors(n, nodes, live, s) == s
    decreases |s|
  {
    if |s| > 0 {
      SurvivorsAll(n, nodes, live, s[..|s| - 1]);
    }
  }

  /** Once the tree is empty every live slab is idle (AVL_destroy, avl.c:304-310). */
  lemma EmptyIdle<D>(n: nat, nodes: seq<AvlNode<D>>, live: seq<bool>, head: int, free: seq<nat>)
    requires Mem(n, nodes, live, Leaf, head, free, {})
    ensures forall k :: 0 <= k < |live| && live[k] ==> Idle(n, nodes, live, k)
    ensures Survivors(n, nodes, live, free) == []
  {
    forall k, i | 0 <= k < |live| && live[k] && 0 <= i < |nodes| && i / n == k ensures !Used(nodes[i]) {
      assert Live(n, live, i);
    }
    var S := Survivors(n, nodes, live, free);
    if |S| > 0 {
      assert S[0] in S && S[0] in free;
      DivNat(S[0], n);
      assert Live(n, live, S[0]);
    }
  }

  /** No live slab, no count. */
  lemma {:induction false} CountNone(live: seq<bool>)
    requires forall k :: 0 <= k < |live| ==> !live[k]
    ensures Count(live) == 0
    decreases |live|
  {
    if |live| > 0 {
      CountNone(live[1..]);
    }
  }

  /** The second pass and the last loop of AVL_dealloc (avl.c:264-293), run when some slab is idle. */
  method Sweep<D>(n: nat, ghost nodes: seq<AvlNode<D>>, live: seq<bool>, ghost t: Tree<D>, head: int, ghost free: seq<nat>,
                  nodes1: seq<AvlNode<D>>, l: int, ghost L: seq<nat>)
    returns (nodes': seq<AvlNode<D>>, live': seq<bool>, head': int)
    requires Mem(n, nodes, live, t, head, free, {})
    requires Marking(n, nodes, nodes1, L) && SlabChain(nodes1, l, L) && NoDup(L)
    requires forall x :: x in L <==> x in free && x % n == 0 && Idle(n, nodes, live, x / n)
    ensures Mem(n, nodes', live', t, head', Survivors(n, nodes, live, free), {})
    ensures |live'| == |live| && forall k :: 0 <= k < |live| ==> (live'[k] <==> live[k] && !Idle(n, nodes, live, k))
    ensures Count(live') + |L| == Count(live)
  {
    nodes', head' := Unlink(nodes1, head, free);
    IdleSlabs(n, nodes, live, L, free);
    assert SlabChain(nodes', l, L);
    live' := FreeSlabs(n, nodes', live, l, L);
    FreedIdle(n, nodes, live, Ids(t), free, L, live');
    ReclaimMem(n, nodes, live, t, head, free, nodes1, L, nodes', head', live');
  }

  /** When the first pass finds no idle slab it leaves the arena as it was. */
  lemma NothingIdle<D>(n: nat, nodes: seq<AvlNode<D>>, live: seq<bool>, t: Tree<D>, head: int, free: seq<nat>,
                       nodes1: seq<AvlNode<D>>, L: seq<nat>)
    requires Mem(n, nodes, live, t, head, free, {}) && Marking(n, nodes, nodes1, L) && |L| == 0
    requires forall x :: x in L <==> x in free && x % n == 0 && Idle(n, nodes, live, x / n)
    ensures nodes1 == nodes && Survivors(n, nodes, live, free) == free
    ensures forall k :: 0 <= k < |live| ==> (live[k] <==> live[k] && !Idle(n, nodes, live, k))
  {
    forall y | 0 <= y < |nodes| ensures nodes1[y] == nodes[y] {
      assert MarkedAt(n, nodes[y], nodes1[y], y, L);
    }
    forall i | 0 <= i < |free| ensures !Idle(n, nodes, live, free[i] / n) {
      MarkedIdle(n, nodes, live, Ids(t), free, nodes1, L, free[i]);
      assert Live(n, live, free[i]);
    }
    SurvivorsAll(n, nodes, live, free);
    FreedIdle(n, nodes, live, Ids(t), free, L, live);
  }

  /**
   * AVL_dealloc (avl.c:206-297): the first pass marks and chains the idle
   * slabs; only when there is one, the second pass unlinks their nodes from
   * the free stack and the last loop frees them.  The result counts the
   * nodes released, n for each slab freed.
   */
  method Dealloc<D>(n: nat, nodes: seq<AvlNode<D>>, live: seq<bool>, ghost t: Tree<D>, head: int, ghost free: seq<nat>)
    returns (nodes': seq<AvlNode<D>>, live': seq<bool>, head': int, c: int)
    requires Mem(n, nodes, live, t, head, free, {})
    ensures Mem(n, nodes', live', t, head', Survivors(n, nodes, live, free), {})
    ensures |live'| == |live| && forall k :: 0 <= k < |live| ==> (live'[k] <==> live[k] && !Idle(n, nodes, live, k))
    ensures c == Freed(n, live, live')
  {
    var nodes1, l, c1, L := MarkIdle(n, nodes, live, Ids(t), head, free);
    c := c1;
    if l != NULL {
      nodes', live', head' := Sweep(n, nodes, live, t, head, free, nodes1, l, L);
      FreedCount(n, live, live', |L|);
    } else {
      NothingIdle(n, nodes, live, t, head, free, nodes1, L);
      nodes', live', head' := nodes1, live, head;
      FreedCount(n, live, live', |L|);
    }
  }
}
