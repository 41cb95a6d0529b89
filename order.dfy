/**
 * The comparator of a tree (avl.h:100-128).
 *
 * `eval(d1, d2)` is negative when d2 sorts before d1, zero when the two are
 * the same item, and positive when d2 sorts after d1.  The tree passes a
 * stored payload as d1 and the searched or inserted payload as d2.  The
 * source demands a consistent total order; here that is a strict weak order
 * on payloads: "before" is irreflexive, antisymmetric, transitive and
 * compatible with "same".  The opaque user pointer of the source is folded
 * into the comparator closure.
 */
module Order {

  /** d1 sorts strictly before d2. */
  predicate Before<D>(eval: (D, D) -> int, d1: D, d2: D) { eval(d1, d2) > 0 }

  /** d1 and d2 compare equal (the source calls this "found"). */
  predicate Same<D>(eval: (D, D) -> int, d1: D, d2: D) { eval(d1, d2) == 0 }

  /** What the source requires of every comparator. */
  ghost predicate IsComparator<D(!new)>(eval: (D, D) -> int) {
    (forall a, b :: eval(a, b) > 0 <==> eval(b, a) < 0)
    && (forall a :: eval(a, a) == 0)
    && (forall a, b, c {:trigger eval(a, c), eval(a, b), eval(b, c)} ::
          eval(a, b) > 0 && eval(b, c) > 0 ==> eval(a, c) > 0)
    && (forall a, b, c {:trigger eval(a, c), eval(a, b), eval(b, c)} ::
          eval(a, b) == 0 && eval(b, c) > 0 ==> eval(a, c) > 0)
    && (forall a, b, c {:trigger eval(a, c), eval(a, b), eval(b, c)} ::
          eval(a, b) > 0 && eval(b, c) == 0 ==> eval(a, c) > 0)
  }

  /** A sequence of payloads in strictly increasing comparator order. */
  ghost predicate Sorted<D>(eval: (D, D) -> int, s: seq<D>) {
    forall i, j :: 0 <= i < j < |s| ==> Before(eval, s[i], s[j])
  }

  /** No element of s compares equal to k. */
  ghost predicate Absent<D>(eval: (D, D) -> int, s: seq<D>, k: D) {
    forall i :: 0 <= i < |s| ==> !Same(eval, s[i], k)
  }

  /**
   * AVL_exampleEval (avl.h:125-128): the payloads are integers and the
   * result is the second integer minus the first.  Integers are unbounded
   * here; the C subtraction can overflow for operands far apart, which is
   * not modelled.
   */
  function ExampleEval(d1: int, d2: int): (e: int)
    ensures e < 0 <==> d2 < d1
    ensures e == 0 <==> d2 == d1
    ensures e > 0 <==> d1 < d2
  {
    d2 - d1
  }

  /** The example comparator meets the comparator contract. */
  lemma ExampleEvalIsComparator()
    ensures IsComparator(ExampleEval)
  {
  }

  /** "Before" chains through "same" on either side. */
  lemma BeforeTrans<D(!new)>(eval: (D, D) -> int, a: D, b: D, c: D)
    requires IsComparator(eval)
    requires Before(eval, a, b) && Before(eval, b, c)
    ensures Before(eval, a, c)
  {
  }

  /** Something before k cannot be the same as anything k is before. */
  lemma SortedAbsentRight<D(!new)>(eval: (D, D) -> int, x: D, s: seq<D>, k: D)
    requires IsComparator(eval)
    requires Before(eval, k, x)
    requires forall i :: 0 <= i < |s| ==> Before(eval, x, s[i])
    ensures Absent(eval, s, k)
  {
    forall i | 0 <= i < |s| ensures !Same(eval, s[i], k) {
      assert eval(k, x) > 0 && eval(x, s[i]) > 0;
      assert eval(k, s[i]) > 0;
    }
  }

  /** Mirror of SortedAbsentRight. */
  lemma SortedAbsentLeft<D(!new)>(eval: (D, D) -> int, x: D, s: seq<D>, k: D)
    requires IsComparator(eval)
    requires Before(eval, x, k)
    requires forall i :: 0 <= i < |s| ==> Before(eval, s[i], x)
    ensures Absent(eval, s, k)
  {
    forall i | 0 <= i < |s| ensures !Same(eval, s[i], k) {
      assert eval(s[i], x) > 0 && eval(x, k) > 0;
      assert eval(s[i], k) > 0;
    }
  }

  /** Taking one element out of a sorted sequence leaves it sorted. */
  lemma SortedRemove<D>(eval: (D, D) -> int, l: seq<D>, x: D, r: seq<D>)
    requires Sorted(eval, l + [x] + r)
    ensures Sorted(eval, l + r)
  {
    var s, s' := l + [x] + r, l + r;
    forall i, j | 0 <= i < j < |s'| ensures Before(eval, s'[i], s'[j]) {
      var i' := if i < |l| then i else i + 1;
      var j' := if j < |l| then j else j + 1;
      assert s'[i] == s[i'] && s'[j] == s[j'];
    }
  }

  /** Reference definition of insertion: d goes in front of the first element it sorts before. */
  function InsertSorted<D>(eval: (D, D) -> int, s: seq<D>, d: D): (r: seq<D>) {
    if |s| == 0 then [d]
    else if Before(eval, d, s[0]) then [d] + s
    else [s[0]] + InsertSorted(eval, s[1..], d)
  }

  /** Reference definition of deletion: the first element that compares the same as k leaves. */
  function RemoveSame<D>(eval: (D, D) -> int, s: seq<D>, k: D): (r: seq<D>) {
    if |s| == 0 then []
    else if Same(eval, s[0], k) then s[1..]
    else [s[0]] + RemoveSame(eval, s[1..], k)
  }

  /** When d falls between l and r, the reference insertion puts it exactly there. */
  lemma {:induction false} InsertSortedSplit<D(!new)>(eval: (D, D) -> int, l: seq<D>, d: D, r: seq<D>)
    requires IsComparator(eval)
    requires forall x :: x in l ==> Before(eval, x, d)
    requires forall y :: y in r ==> Before(eval, d, y)
    ensures InsertSorted(eval, l + r, d) == l + [d] + r
    decreases |l|
  {
    if |l| == 0 {
      assert l + r == r;
      if |r| > 0 {
        assert r[0] in r;
      }
    } else {
      assert l[0] in l;
      assert !Before(eval, d, l[0]);
      assert (l + r)[1..] == l[1..] + r;
      InsertSortedSplit(eval, l[1..], d, r);
    }
  }

  /** When x compares the same as k and everything before x sorts before it, the reference deletion removes x. */
  lemma {:induction false} RemoveSameSplit<D(!new)>(eval: (D, D) -> int, l: seq<D>, x: D, r: seq<D>, k: D)
    requires IsComparator(eval) && Same(eval, x, k)
    requires forall i :: 0 <= i < |l| ==> Before(eval, l[i], x)
    ensures RemoveSame(eval, l + [x] + r, k) == l + r
    decreases |l|
  {
    if |l| == 0 {
      assert l + [x] + r == [x] + r;
    } else {
      assert eval(l[0], x) > 0 && eval(x, k) == 0;
      assert !Same(eval, l[0], k);
      assert (l + [x] + r)[1..] == l[1..] + [x] + r;
      RemoveSameSplit(eval, l[1..], x, r, k);
    }
  }

  /** The parts of a sorted sequence around one of its elements. */
  lemma SortedParts<D>(eval: (D, D) -> int, l: seq<D>, x: D, r: seq<D>)
    requires Sorted(eval, l + [x] + r)
    ensures Sorted(eval, l) && Sorted(eval, r)
    ensures forall i :: 0 <= i < |l| ==> Before(eval, l[i], x)
    ensures forall i :: 0 <= i < |r| ==> Before(eval, x, r[i])
  {
    var s := l + [x] + r;
    assert forall i :: 0 <= i < |l| ==> s[i] == l[i];
    assert forall i :: 0 <= i < |r| ==> s[|l| + 1 + i] == r[i];
    assert s[|l|] == x;
  }

  lemma AbsentConcat<D>(eval: (D, D) -> int, a: seq<D>, b: seq<D>, k: D)
    ensures Absent(eval, a + b, k) <==> Absent(eval, a, k) && Absent(eval, b, k)
  {
    if Absent(eval, a, k) && Absent(eval, b, k) {
      forall i | 0 <= i < |a + b| ensures !Same(eval, (a + b)[i], k) {
        if i >= |a| {
          assert (a + b)[i] == b[i - |a|];
        }
      }
    }
    if Absent(eval, a + b, k) {
      forall i | 0 <= i < |a| ensures !Same(eval, a[i], k) {
        assert (a + b)[i] == a[i];
      }
      forall i | 0 <= i < |b| ensures !Same(eval, b[i], k) {
        assert (a + b)[|a| + i] == b[i];
      }
    }
  }
}
