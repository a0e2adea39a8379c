/** One level of the skip list, read left to right between its head and tail
    sentinels, is a sequence of stored values. This module holds what the
    skip list needs to know about such a sequence: the ordering invariant, the
    linear "before node" scan, and linking a node in or out. */
module SortedLevels {

  /** Invariant 1 of a level: values are non-descending from head to tail. */
  predicate Sorted(l: seq<int>) {
    forall i, j :: 0 <= i < j < |l| ==> l[i] <= l[j]
  }

  /** Dropping the first value keeps a sequence sorted. */
  lemma SortedTail(l: seq<int>)
    requires Sorted(l) && |l| > 0
    ensures Sorted(l[1..])
    ensures forall i :: 0 <= i < |l| ==> l[0] <= l[i]
  {
    forall i, j | 0 <= i < j < |l| - 1 ensures l[1..][i] <= l[1..][j] {
      assert l[1..][i] == l[i + 1] && l[1..][j] == l[j + 1];
    }
  }

  /** Values strictly increase: every value occurs at most once. */
  predicate StrictlyIncreasing(l: seq<int>) {
    forall i, j :: 0 <= i < j < |l| ==> l[i] < l[j]
  }

  /** `_search_before_level`: starting just after position `from`, move right
      while the next node holds a value smaller than `x`. The result `k` is the
      number of nodes left of the insertion point, so the "before" node is the
      head when `k == 0` and the node at `k - 1` otherwise; the node after it is
      `l[k]`, or the tail when `k == |l|`. The tail stops the scan because it
      never compares as smaller. */
  function ScanBefore(l: seq<int>, x: int, from: nat): (k: nat)
    requires from <= |l|
    ensures from <= k <= |l|
    ensures forall i :: from <= i < k ==> l[i] < x
    ensures k < |l| ==> x <= l[k]
    decreases |l| - from
  {
    if from < |l| && l[from] < x then ScanBefore(l, x, from + 1) else from
  }

  /** The scan started at the head of a level. */
  function BeforeIndex(l: seq<int>, x: int): (k: nat)
    ensures k <= |l|
    ensures forall i :: 0 <= i < k ==> l[i] < x
    ensures Sorted(l) ==> forall i :: k <= i < |l| ==> x <= l[i]
  {
    ScanBefore(l, x, 0)
  }

  /** The source starts each level's scan at the below link of the node found
      on the level above, not at the head. In a sorted level any start right
      after a node smaller than `x` ends where the scan from the head ends, so
      the model scans from the head. */
  lemma {:induction false} ScanFromHint(l: seq<int>, x: int, from: nat)
    requires Sorted(l)
    requires from <= |l|
    requires from == 0 || l[from - 1] < x
    ensures ScanBefore(l, x, from) == BeforeIndex(l, x)
  {
    ScanPrefix(l, x, from);
  }

  /** A scan from the head passes every position whose value is smaller than x. */
  lemma {:induction false} ScanPrefix(l: seq<int>, x: int, from: nat)
    requires from <= |l|
    requires forall i :: 0 <= i < from ==> l[i] < x
    ensures ScanBefore(l, x, from) == ScanBefore(l, x, 0)
    decreases from
  {
    if from > 0 {
      ScanPrefix(l, x, from - 1);
      assert ScanBefore(l, x, from - 1) == ScanBefore(l, x, from);
    }
  }

  /** The node after the "before" node holds `x` (`next_node == elem`). */
  predicate Found(l: seq<int>, x: int) {
    BeforeIndex(l, x) < |l| && l[BeforeIndex(l, x)] == x
  }

  /** In a sorted level the scan finds `x` exactly when the level holds it. */
  lemma FoundIffMember(l: seq<int>, x: int)
    requires Sorted(l)
    ensures Found(l, x) <==> x in l
  {
    var k := BeforeIndex(l, x);
    if x in l {
      var i :| 0 <= i < |l| && l[i] == x;
      assert k <= i;
      assert x <= l[k] <= l[i];
    }
  }

  /** Link a new node holding `x` after the first `k` nodes. */
  function InsertAt(l: seq<int>, k: nat, x: int): (r: seq<int>)
    requires k <= |l|
    ensures |r| == |l| + 1 && r[k] == x
    ensures multiset(r) == multiset(l) + multiset{x}
  {
    assert l == l[..k] + l[k..];
    l[..k] + [x] + l[k..]
  }

  /** Link `x` in right after the last node strictly smaller than it: the
      nodes before the scan's stopping point keep their positions, the new
      node takes that position, and the rest move one to the right. */
  function InsertSorted(l: seq<int>, x: int): (r: seq<int>)
    ensures |r| == |l| + 1
    ensures r[BeforeIndex(l, x)] == x
    ensures forall m :: 0 <= m < BeforeIndex(l, x) ==> r[m] == l[m]
    ensures forall m :: BeforeIndex(l, x) < m < |r| ==> r[m] == l[m - 1]
  {
    var k := BeforeIndex(l, x);
    var r := InsertAt(l, k, x);
    assert forall m :: 0 <= m < k ==> r[m] == l[m];
    assert forall m :: k < m < |r| ==> r[m] == l[m - 1];
    r
  }

  /** Linking `x` in adds exactly one copy of it and keeps a sorted level sorted. */
  lemma InsertSortedFacts(l: seq<int>, x: int)
    ensures multiset(InsertSorted(l, x)) == multiset(l) + multiset{x}
    ensures Sorted(l) ==> Sorted(InsertSorted(l, x))
  {
    var k := BeforeIndex(l, x);
    var r := InsertSorted(l, x);
    assert r == InsertAt(l, k, x);
    if Sorted(l) {
      forall i, j | 0 <= i < j < |r| ensures r[i] <= r[j] {
      }
    }
  }

  /** Unlink the node at position `k` (`before.set_next_node(next.next)`):
      the nodes before it keep their positions, the ones after it move one
      to the left. */
  function DeleteAt(l: seq<int>, k: nat): (r: seq<int>)
    requires k < |l|
    ensures |r| + 1 == |l|
    ensures forall m :: 0 <= m < k ==> r[m] == l[m]
    ensures forall m :: k <= m < |r| ==> r[m] == l[m + 1]
    ensures Sorted(l) ==> Sorted(r)
  {
    var r := l[..k] + l[k + 1..];
    assert forall m :: 0 <= m < k ==> r[m] == l[m];
    assert forall m :: k <= m < |r| ==> r[m] == l[m + 1];
    r
  }

  /** Unlinking a node removes exactly one copy of its value. */
  lemma DeleteAtMultiset(l: seq<int>, k: nat)
    requires k < |l|
    ensures multiset(DeleteAt(l, k)) == multiset(l) - multiset{l[k]}
  {
    assert l == l[..k] + [l[k]] + l[k + 1..];
  }

  /** Two sorted sequences holding the same multiset of values are equal. */
  lemma {:induction false} SortedUnique(a: seq<int>, b: seq<int>)
    requires Sorted(a) && Sorted(b)
    requires multiset(a) == multiset(b)
    ensures a == b
    decreases |a|
  {
    if |a| == 0 {
      assert |multiset(b)| == 0;
    } else {
      assert |b| == |a| by {
        assert |multiset(b)| == |multiset(a)|;
      }
      LeastOfSorted(a, b);
      LeastOfSorted(b, a);
      assert a == [a[0]] + a[1..];
      assert b == [b[0]] + b[1..];
      assert multiset(a[1..]) == multiset(b[1..]) by {
        assert multiset(a) == multiset{a[0]} + multiset(a[1..]);
        assert multiset(b) == multiset{b[0]} + multiset(b[1..]);
        assert multiset(a[1..]) == multiset(a) - multiset{a[0]};
        assert multiset(b[1..]) == multiset(b) - multiset{b[0]};
      }
      SortedUnique(a[1..], b[1..]);
    }
  }

  /** The first value of a sorted non-empty sequence is below every value of
      any sequence holding the same multiset. */
  lemma LeastOfSorted(a: seq<int>, b: seq<int>)
    requires Sorted(b) && |a| > 0 && |b| > 0
    requires multiset(a) == multiset(b)
    ensures b[0] <= a[0]
  {
    assert a[0] in multiset(a);
    assert a[0] in b;
  }
}
