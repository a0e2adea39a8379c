/** The multiset facade (`1-multiset/multiset.py`): count-based set algebra
    layered on a skip list. Every operation is stated against Dafny's own
    `multiset<int>`, the stored occurrences of the underlying list. Inserts
    draw their promotion coins from a `coins` input and hand back the draws
    they did not use. */
module MultiSets {
  import opened Outcomes
  import opened SortedLevels
  import SkipLists

  /** `MultiSet`: a wrapper around the skip list that stores its occurrences. */
  datatype MultiSet = MultiSet(list: SkipLists.SkipList)

  predicate Valid(m: MultiSet) {
    SkipLists.Valid(m.list)
  }

  /** The stored occurrences. */
  function Elems(m: MultiSet): multiset<int>
    requires Valid(m)
  {
    SkipLists.Elems(m.list)
  }

  /** `MultiSet()`: wraps a fresh skip list with the default probability. */
  function Empty(): (r: MultiSet)
    ensures Valid(r) && Elems(r) == multiset{}
    ensures r.list.p == SkipLists.DefaultProbability
  {
    MultiSet(SkipLists.Default())
  }

  /** `count`: the number of occurrences of `x`. */
  function Count(m: MultiSet, x: int): (c: nat)
    requires Valid(m)
    ensures c == Elems(m)[x]
  {
    SkipLists.Count(m.list, x)
  }

  /** Python truth value of a `search` result: `None` and the integer 0 are
      false, every other integer is true. */
  predicate Truthy(r: Option<int>) {
    r.Some? && r.value != 0
  }

  /** `__contains__` as written: the truth value of what `search` returns,
      which is the stored value itself, so a stored 0 reads as absent. */
  function ContainsAsWritten(m: MultiSet, x: int): (r: bool)
    requires Valid(m)
    ensures r <==> x in Elems(m) && x != 0
  {
    Truthy(SkipLists.Search(m.list, x))
  }

  /** `__contains__` as documented: at least one occurrence of `x`. */
  function Contains(m: MultiSet, x: int): (r: bool)
    requires Valid(m)
    ensures r <==> Count(m, x) > 0
    ensures r <==> x in Elems(m)
  {
    SkipLists.Search(m.list, x).Some?
  }

  /** A multiset holding one 0 does not contain 0 as written, although it
      counts one occurrence of it. */
  lemma StoredZeroMissed()
    ensures Valid(Insert(Empty(), 0, []))
    ensures Count(Insert(Empty(), 0, []), 0) == 1
    ensures !ContainsAsWritten(Insert(Empty(), 0, []), 0)
    ensures Contains(Insert(Empty(), 0, []), 0)
  {
  }

  /** `insert`: one more occurrence of `x`; the promotion draws come from `coins`. */
  function Insert(m: MultiSet, x: int, coins: seq<bool>): (r: MultiSet)
    requires Valid(m)
    ensures Valid(r)
    ensures Elems(r) == Elems(m) + multiset{x}
  {
    MultiSet(SkipLists.Insert(m.list, x, coins))
  }

  /** The draws an insert leaves unused. */
  function Remaining(coins: seq<bool>): (rest: seq<bool>)
    ensures |rest| <= |coins|
  {
    coins[SkipLists.Consumed(coins)..]
  }

  /** `remove`: one occurrence of `x` fewer, if there was one; the skip list's
      success flag is dropped. */
  function Remove(m: MultiSet, x: int): (r: MultiSet)
    requires Valid(m)
    ensures Valid(r)
    ensures Elems(r) == Elems(m) - multiset{x}
  {
    MultiSet(SkipLists.Remove(m.list, x).0)
  }

  /** `clear`: the multiset now wraps a brand-new empty skip list with the
      default probability, whatever it held before. */
  function Clear(m: MultiSet): (r: MultiSet)
    ensures Valid(r) && Elems(r) == multiset{} && Len(r) == 0
    ensures r.list.p == SkipLists.DefaultProbability
  {
    Empty()
  }

  /** `__len__`: the number of occurrences. */
  function Len(m: MultiSet): (n: int)
    requires Valid(m)
    ensures n == |Elems(m)|
  {
    SkipLists.Len(m.list)
  }

  /** `__eq__`: skip list equality, which holds exactly for equal multisets. */
  function Equal(a: MultiSet, b: MultiSet): (r: bool)
    requires Valid(a) && Valid(b)
    ensures r <==> Elems(a) == Elems(b)
    ensures r == SkipLists.Equal(a.list, b.list)
  {
    SkipLists.Equal(a.list, b.list)
  }

  /** `__add__`: a new multiset holding the occurrences of both operands. */
  function Union(a: MultiSet, b: MultiSet, coins: seq<bool>): (r: MultiSet)
    requires Valid(a) && Valid(b)
    ensures Valid(r)
    ensures Elems(r) == Elems(a) + Elems(b)
    ensures Len(r) == Len(a) + Len(b)
  {
    MultiSet(SkipLists.Concat(a.list, b.list, coins).0)
  }

  /** `__iadd__`: adds every occurrence of `b` to `a`. */
  function UnionUpdate(a: MultiSet, b: MultiSet, coins: seq<bool>): (r: MultiSet)
    requires Valid(a) && Valid(b)
    ensures Valid(r)
    ensures Elems(r) == Elems(a) + Elems(b)
    ensures Len(r) == Len(a) + Len(b)
  {
    MultiSet(SkipLists.ConcatInPlace(a.list, b.list, coins).0)
  }

  // ---------------------------------------------------------------------------
  // Loops over the distinct values

  /** A strictly increasing sequence does not repeat its value at `i` before `i`. */
  lemma NotEarlier(u: seq<int>, i: nat)
    requires StrictlyIncreasing(u) && i < |u|
    ensures u[i] !in u[..i]
  {
  }

  /** The step of a loop over distinct values `u`: values already visited
      hold their `target` count, the rest their `other` count; setting the
      count of `u[i]` alone to its target extends the visited prefix by one. */
  lemma ExtendPrefix(before: multiset<int>, after: multiset<int>, u: seq<int>, i: nat, target: multiset<int>, other: multiset<int>)
    requires i < |u| && u[i] !in u[..i]
    requires forall y :: before[y] == if y in u[..i] then target[y] else other[y]
    requires after[u[i]] == target[u[i]]
    requires forall y :: y != u[i] ==> after[y] == before[y]
    ensures forall y :: after[y] == if y in u[..i + 1] then target[y] else other[y]
  {
    assert u[..i + 1] == u[..i] + [u[i]];
  }

  /** After a loop over all of `u`, values outside `u` keep their `other`
      count; where those agree with `target`, the loop reached `target`. */
  lemma FinishPrefix(r: multiset<int>, u: seq<int>, target: multiset<int>, other: multiset<int>)
    requires forall y :: r[y] == if y in u[..|u|] then target[y] else other[y]
    requires forall y :: y !in u ==> other[y] == target[y]
    ensures r == target
  {
    assert u[..|u|] == u;
    assert forall y :: r[y] == target[y];
  }

  /** `__le__`: walks the distinct values of `a` and stops at the first one `a`
      holds more often than `b`. */
  method SubsetOf(a: MultiSet, b: MultiSet) returns (r: bool)
    requires Valid(a) && Valid(b)
    ensures r <==> Elems(a) <= Elems(b)
  {
    var u := SkipLists.UniqueValues(a.list);
    r := true;
    var i := 0;
    while r && i < |u|
      invariant 0 <= i <= |u|
      invariant r ==> forall k :: 0 <= k < i ==> Elems(a)[u[k]] <= Elems(b)[u[k]]
      invariant !r ==> 0 < i && Elems(a)[u[i - 1]] > Elems(b)[u[i - 1]]
    {
      r := Count(a, u[i]) <= Count(b, u[i]);
      i := i + 1;
    }
    if r {
      assert forall y :: Elems(a)[y] <= Elems(b)[y] by {
        forall y ensures Elems(a)[y] <= Elems(b)[y] {
          if y in Elems(a) {
            assert y in u;
            var k :| 0 <= k < |u| && u[k] == y;
          }
        }
      }
    }
  }

  /** `for count in range(n): m.insert(x)`: `n` more copies of `x`, none when
      `n` is not positive; other values keep their counts. */
  method InsertCopies(m: MultiSet, x: int, n: int, coins: seq<bool>) returns (r: MultiSet, rest: seq<bool>)
    requires Valid(m)
    ensures Valid(r)
    ensures Elems(r)[x] == Elems(m)[x] + (if n > 0 then n else 0)
    ensures forall y :: y != x ==> Elems(r)[y] == Elems(m)[y]
    ensures |rest| <= |coins|
  {
    r, rest := m, coins;
    var k := 0;
    while k < n
      invariant Valid(r)
      invariant n > 0 ==> 0 <= k <= n
      invariant n <= 0 ==> k == 0
      invariant Elems(r) == Elems(m) + multiset{}[x := k]
      invariant |rest| <= |coins|
    {
      r := Insert(r, x, rest);
      rest := Remaining(rest);
      k := k + 1;
    }
  }

  /** `for count in range(n): m.remove(x)`, for `n` no larger than the
      number of copies held: exactly `n` copies of `x` fewer. */
  method RemoveCopies(m: MultiSet, x: int, n: nat) returns (r: MultiSet)
    requires Valid(m)
    requires n <= Elems(m)[x]
    ensures Valid(r)
    ensures Elems(r)[x] + n == Elems(m)[x]
    ensures forall y :: y != x ==> Elems(r)[y] == Elems(m)[y]
  {
    r := m;
    var k := 0;
    while k < n
      invariant Valid(r)
      invariant 0 <= k <= n
      invariant Elems(r) + multiset{}[x := k] == Elems(m)
    {
      r := Remove(r, x);
      k := k + 1;
    }
  }

  /** `__sub__`: a new multiset where each distinct value of `a` occurs as
      many times as `a` holds it beyond `b`'s count. */
  method Difference(a: MultiSet, b: MultiSet, coins: seq<bool>) returns (r: MultiSet, rest: seq<bool>)
    requires Valid(a) && Valid(b)
    ensures Valid(r)
    ensures Elems(r) == Elems(a) - Elems(b)
    ensures |rest| <= |coins|
  {
    r, rest := Empty(), coins;
    var u := SkipLists.UniqueValues(a.list);
    var i := 0;
    while i < |u|
      invariant 0 <= i <= |u|
      invariant Valid(r)
      invariant forall y :: Elems(r)[y] == if y in u[..i] then (Elems(a) - Elems(b))[y] else multiset{}[y]
      invariant |rest| <= |coins|
    {
      var x := u[i];
      var diff := Count(a, x) - Count(b, x);
      NotEarlier(u, i);
      ghost var before := Elems(r);
      r, rest := InsertCopies(r, x, diff, rest);
      ExtendPrefix(before, Elems(r), u, i, Elems(a) - Elems(b), multiset{});
      i := i + 1;
    }
    FinishPrefix(Elems(r), u, Elems(a) - Elems(b), multiset{});
  }

  /** The skip list's `remove` with its success flag: it removes one copy of
      `x` exactly when there is one. */
  function TryRemove(m: MultiSet, x: int): (r: (MultiSet, bool))
    requires Valid(m)
    ensures Valid(r.0)
    ensures r.1 <==> x in Elems(m)
    ensures Elems(r.0) == Elems(m) - multiset{x}
  {
    var (next, removed) := SkipLists.Remove(m.list, x);
    (MultiSet(next), removed)
  }

  /** `while count < elem_count and remove(elem)`: removes copies of `x` one
      at a time until `limit` were removed or a removal reports none left. */
  method RemoveUpTo(m: MultiSet, x: int, limit: nat) returns (r: MultiSet)
    requires Valid(m)
    ensures Valid(r)
    ensures Elems(r)[x] == if Elems(m)[x] <= limit then 0 else Elems(m)[x] - limit
    ensures forall y :: y != x ==> Elems(r)[y] == Elems(m)[y]
  {
    r := m;
    var count := 0;
    var going := true;
    while going
      invariant Valid(r)
      invariant 0 <= count <= limit
      invariant Elems(r)[x] + count == Elems(m)[x]
      invariant forall y :: y != x ==> Elems(r)[y] == Elems(m)[y]
      invariant !going ==> count == limit || Elems(r)[x] == 0
      decreases limit - count + (if going then 1 else 0)
    {
      if count < limit {
        var step := TryRemove(r, x);
        if step.1 {
          r := step.0;
          count := count + 1;
        } else {
          going := false;
        }
      } else {
        going := false;
      }
    }
  }

  /** `__isub__`: for each distinct value of `b`, removes up to `b`'s count of
      it from `a`, stopping early once a removal finds none left. */
  method DifferenceUpdate(a: MultiSet, b: MultiSet) returns (r: MultiSet)
    requires Valid(a) && Valid(b)
    ensures Valid(r)
    ensures Elems(r) == Elems(a) - Elems(b)
  {
    r := a;
    var u := SkipLists.UniqueValues(b.list);
    var i := 0;
    while i < |u|
      invariant 0 <= i <= |u|
      invariant Valid(r)
      invariant forall y :: Elems(r)[y] == if y in u[..i] then (Elems(a) - Elems(b))[y] else Elems(a)[y]
    {
      var x := u[i];
      NotEarlier(u, i);
      ghost var before := Elems(r);
      r := RemoveUpTo(r, x, Count(b, x));
      ExtendPrefix(before, Elems(r), u, i, Elems(a) - Elems(b), Elems(a));
      i := i + 1;
    }
    FinishPrefix(Elems(r), u, Elems(a) - Elems(b), Elems(a));
  }

  /** The loop of `__and__`: for each distinct value of `itered`, the smaller
      of its two counts, inserted into a fresh multiset. */
  method MinCopies(itered: MultiSet, other: MultiSet, coins: seq<bool>) returns (r: MultiSet, rest: seq<bool>)
    requires Valid(itered) && Valid(other)
    ensures Valid(r)
    ensures Elems(r) == Elems(itered) * Elems(other)
    ensures |rest| <= |coins|
  {
    r, rest := Empty(), coins;
    var u := SkipLists.UniqueValues(itered.list);
    var i := 0;
    while i < |u|
      invariant 0 <= i <= |u|
      invariant Valid(r)
      invariant forall y :: Elems(r)[y] == if y in u[..i] then (Elems(itered) * Elems(other))[y] else multiset{}[y]
      invariant |rest| <= |coins|
    {
      var x := u[i];
      var ci := Count(itered, x);
      var co := Count(other, x);
      var finalCount := if ci < co then ci else co;
      NotEarlier(u, i);
      ghost var before := Elems(r);
      r, rest := InsertCopies(r, x, finalCount, rest);
      ExtendPrefix(before, Elems(r), u, i, Elems(itered) * Elems(other), multiset{});
      i := i + 1;
    }
    FinishPrefix(Elems(r), u, Elems(itered) * Elems(other), multiset{});
  }

  /** `__and__`: iterates the distinct values of the shorter operand (of `b`
      on a tie) and keeps, for each, the smaller of the two counts. */
  method Intersection(a: MultiSet, b: MultiSet, coins: seq<bool>) returns (r: MultiSet, rest: seq<bool>)
    requires Valid(a) && Valid(b)
    ensures Valid(r)
    ensures Elems(r) == Elems(a) * Elems(b)
    ensures |rest| <= |coins|
  {
    if Len(a) < Len(b) {
      r, rest := MinCopies(a, b, coins);
    } else {
      r, rest := MinCopies(b, a, coins);
      assert Elems(b) * Elems(a) == Elems(a) * Elems(b);
    }
  }

  /** Two positions holding the same value mean two copies of it. */
  lemma CountsBoth(vs: seq<int>, p: nat, q: nat)
    requires p < q < |vs|
    ensures multiset(vs)[vs[p]] >= (if vs[p] == vs[q] then 2 else 1)
  {
    assert vs == vs[..q] + vs[q..];
    assert vs[p] == vs[..q][p];
    assert vs[q] == vs[q..][0];
    assert multiset(vs)[vs[p]] == multiset(vs[..q])[vs[p]] + multiset(vs[q..])[vs[p]];
  }

  /** A sorted sequence holding each of its values once is strictly increasing. */
  lemma SortedOnceIncreasing(vs: seq<int>)
    requires Sorted(vs)
    requires forall y :: multiset(vs)[y] <= 1
    ensures StrictlyIncreasing(vs)
  {
    forall p, q | 0 <= p < q < |vs| ensures vs[p] < vs[q] {
      CountsBoth(vs, p, q);
    }
  }

  /** The step of the collecting loops of `__iand__`: adding `u[j]` unless it
      is already there keeps one copy of each value seen. */
  lemma ExtendOnce(before: multiset<int>, after: multiset<int>, base: multiset<int>, u: seq<int>, j: nat)
    requires j < |u|
    requires forall y :: before[y] == if y in base || y in u[..j] then 1 else 0
    requires after == if u[j] in before then before else before + multiset{u[j]}
    ensures forall y :: after[y] == if y in base || y in u[..j + 1] then 1 else 0
  {
    assert u[..j + 1] == u[..j] + [u[j]];
  }

  /** One step of the collecting loops of `__iand__`: `x` is inserted only if
      the list does not yet yield it. */
  function AddIfAbsent(s: SkipLists.SkipList, x: int, coins: seq<bool>): (r: (SkipLists.SkipList, seq<bool>))
    requires SkipLists.Valid(s)
    ensures SkipLists.Valid(r.0)
    ensures SkipLists.Elems(r.0) == if x in SkipLists.Elems(s) then SkipLists.Elems(s) else SkipLists.Elems(s) + multiset{x}
    ensures |r.1| <= |coins|
  {
    if x in SkipLists.Values(s) then (s, coins)
    else (SkipLists.Insert(s, x, coins), Remaining(coins))
  }

  /** The first loop of `__iand__`: inserts every distinct value of `a`, so each
      is held once. */
  method CollectUnique(a: MultiSet, coins: seq<bool>) returns (both: SkipLists.SkipList, rest: seq<bool>)
    requires Valid(a)
    ensures SkipLists.Valid(both)
    ensures forall y :: SkipLists.Elems(both)[y] == if y in Elems(a) then 1 else 0
    ensures |rest| <= |coins|
  {
    both := SkipLists.Default();
    rest := coins;
    var ua := SkipLists.UniqueValues(a.list);
    var i := 0;
    while i < |ua|
      invariant 0 <= i <= |ua|
      invariant SkipLists.Valid(both)
      invariant forall y :: SkipLists.Elems(both)[y] == if y in multiset{} || y in ua[..i] then 1 else 0
      invariant |rest| <= |coins|
    {
      NotEarlier(ua, i);
      ghost var before := SkipLists.Elems(both);
      both := SkipLists.Insert(both, ua[i], rest);
      rest := Remaining(rest);
      ExtendOnce(before, SkipLists.Elems(both), multiset{}, ua, i);
      i := i + 1;
    }
    assert ua[..i] == ua;
  }

  /** The second loop of `__iand__`: adds each distinct value of `b` that the
      collected list does not yet yield. */
  method CollectMissing(both: SkipLists.SkipList, b: MultiSet, coins: seq<bool>) returns (r: SkipLists.SkipList, rest: seq<bool>)
    requires SkipLists.Valid(both) && Valid(b)
    requires forall y :: SkipLists.Elems(both)[y] == if y in SkipLists.Elems(both) then 1 else 0
    ensures SkipLists.Valid(r)
    ensures forall y :: SkipLists.Elems(r)[y] == if y in SkipLists.Elems(both) || y in Elems(b) then 1 else 0
    ensures |rest| <= |coins|
  {
    r, rest := both, coins;
    var ub := SkipLists.UniqueValues(b.list);
    var j := 0;
    while j < |ub|
      invariant 0 <= j <= |ub|
      invariant SkipLists.Valid(r)
      invariant forall y :: SkipLists.Elems(r)[y] == if y in SkipLists.Elems(both) || y in ub[..j] then 1 else 0
      invariant |rest| <= |coins|
    {
      ghost var before := SkipLists.Elems(r);
      var step := AddIfAbsent(r, ub[j], rest);
      r, rest := step.0, step.1;
      ExtendOnce(before, SkipLists.Elems(r), SkipLists.Elems(both), ub, j);
      j := j + 1;
    }
    assert ub[..j] == ub;
  }

  /** The last loop of `__iand__`: for each value of `vs`, removes from `a` the
      copies beyond `b`'s count. */
  method TrimToMin(a: MultiSet, b: MultiSet, vs: seq<int>) returns (r: MultiSet)
    requires Valid(a) && Valid(b)
    requires StrictlyIncreasing(vs)
    requires forall y :: y in Elems(a) ==> y in vs
    ensures Valid(r)
    ensures Elems(r) == Elems(a) * Elems(b)
  {
    r := a;
    var k := 0;
    while k < |vs|
      invariant 0 <= k <= |vs|
      invariant Valid(r)
      invariant forall y :: Elems(r)[y] == if y in vs[..k] then (Elems(a) * Elems(b))[y] else Elems(a)[y]
    {
      var x := vs[k];
      NotEarlier(vs, k);
      var cur := Count(r, x);
      var bc := Count(b, x);
      var finalCount := if cur < bc then cur else bc;
      ghost var before := Elems(r);
      r := RemoveCopies(r, x, cur - finalCount);
      ExtendPrefix(before, Elems(r), vs, k, Elems(a) * Elems(b), Elems(a));
      k := k + 1;
    }
    FinishPrefix(Elems(r), vs, Elems(a) * Elems(b), Elems(a));
  }

  /** `__iand__`: first collects every distinct value of either operand into
      a skip list of unique values (a value of `b` is added only if the list
      does not yet yield it), then for each collected value removes from `a`
      the copies beyond `b`'s count. */
  method IntersectionUpdate(a: MultiSet, b: MultiSet, coins: seq<bool>) returns (r: MultiSet, rest: seq<bool>)
    requires Valid(a) && Valid(b)
    ensures Valid(r)
    ensures Elems(r) == Elems(a) * Elems(b)
    ensures |rest| <= |coins|
  {
    var fromA, rest1 := CollectUnique(a, coins);
    var both;
    both, rest := CollectMissing(fromA, b, rest1);
    var vs := SkipLists.Values(both);
    SortedOnceIncreasing(vs);
    assert forall y :: y in Elems(a) ==> y in vs by {
      forall y | y in Elems(a) ensures y in vs {
        assert SkipLists.Elems(fromA)[y] == 1;
        assert multiset(vs)[y] == 1;
      }
    }
    r := TrimToMin(a, b, vs);
  }

  /** A multiset intersection is empty exactly when no value is in both. */
  lemma EmptyIntersection(a: multiset<int>, b: multiset<int>)
    ensures a * b == multiset{} <==> a !! b
  {
    if a !! b {
      assert forall y :: (a * b)[y] == multiset{}[y];
    }
    if a * b == multiset{} {
      forall y | y in a ensures y !in b {
        assert (a * b)[y] == 0;
      }
    }
  }

  /** `isdisjoint`: the intersection has no occurrences. */
  method IsDisjoint(a: MultiSet, b: MultiSet, coins: seq<bool>) returns (r: bool)
    requires Valid(a) && Valid(b)
    ensures r <==> Elems(a) !! Elems(b)
    ensures r <==> forall y :: !(Count(a, y) > 0 && Count(b, y) > 0)
  {
    var both, _ := Intersection(a, b, coins);
    r := Len(both) == 0;
    EmptyIntersection(Elems(a), Elems(b));
    assert r <==> Elems(both) == multiset{};
    assert Elems(a) !! Elems(b) <==> forall y :: !(Count(a, y) > 0 && Count(b, y) > 0) by {
      assert forall y :: (y in Elems(a) <==> Count(a, y) > 0) && (y in Elems(b) <==> Count(b, y) > 0);
    }
  }
}
