/** The skip list engine (`2-skiplist/skiplist.py`).

    A list is its levels, bottom level first, each level read from its head to
    its tail sentinel, together with the stored length counter and the coin
    probability. Head, tail and element nodes and their forward and below
    links are not represented: a node is a position in its level, and the
    below link of a node is the copy of the same occurrence one level down.
    The random coin of the source is an input: `coins[i]` is the outcome of
    the i-th draw `random.random() < p`, and a draw past the end of `coins`
    counts as a failed one. */
module SkipLists {
  import opened Outcomes
  import opened SortedLevels

  /** Class constants of `SkipList`. */
  const ProbLowerBound: real := 0.0
  const ProbUpperBound: real := 1.0
  const DefaultProbability: real := 0.5

  /** Messages of `RandProbException`. */
  const FixedPMinimum: string := "The probability parameter must be greater than 0."
  const FixedPMaximum: string := "The probability parameter must be less than 1."

  datatype SkipList = SkipList(levels: seq<seq<int>>, length: int, p: real)

  /** `RandProbException`, raised by the constructor; it keeps the rejected value. */
  datatype ProbError = RandProbException(fixedP: real)

  // ---------------------------------------------------------------------------
  // Invariants

  predicate LevelsSorted(levels: seq<seq<int>>) {
    forall i :: 0 <= i < |levels| ==> Sorted(levels[i])
  }

  /** Every occurrence on a level is also a distinct node on the level below. */
  predicate Tower(levels: seq<seq<int>>) {
    forall i :: 0 < i < |levels| ==> multiset(levels[i]) <= multiset(levels[i - 1])
  }

  /** Only the top level may be a bare head followed by the tail. */
  predicate EmptyOnlyAtTop(levels: seq<seq<int>>) {
    forall i :: 0 <= i < |levels| - 1 ==> |levels[i]| > 0
  }

  predicate ValidProbability(p: real) {
    ProbLowerBound < p < ProbUpperBound
  }

  /** The state every public operation starts from and leaves behind. */
  predicate Valid(s: SkipList) {
    && |s.levels| >= 1
    && LevelsSorted(s.levels)
    && Tower(s.levels)
    && EmptyOnlyAtTop(s.levels)
    && s.length == |s.levels[0]|
    && ValidProbability(s.p)
  }

  /** The stored occurrences: the values of the bottom level. */
  function Elems(s: SkipList): multiset<int>
    requires |s.levels| >= 1
  {
    multiset(s.levels[0])
  }

  /** A value held on some level is held on every level below it. */
  lemma {:induction false} TowerDown(levels: seq<seq<int>>, i: nat, j: nat, x: int)
    requires Tower(levels)
    requires j <= i < |levels|
    requires x in levels[i]
    ensures x in levels[j]
    decreases i - j
  {
    if j < i {
      assert x in multiset(levels[i]);
      assert x in multiset(levels[i - 1]);
      TowerDown(levels, i - 1, j, x);
    }
  }

  // ---------------------------------------------------------------------------
  // Construction

  /** `SkipList.__init__`: one empty level, length 0, and the probability if it
      lies strictly between the bounds. */
  function New(fixedP: real): (r: Result<SkipList, ProbError>)
    ensures r.Success? <==> ProbLowerBound < fixedP < ProbUpperBound
    ensures r.Success? ==> Valid(r.value) && r.value.length == 0 && Elems(r.value) == multiset{}
    ensures r.Success? ==> r.value.p == fixedP
    ensures r.Failure? ==> r.error.fixedP == fixedP
  {
    if fixedP <= ProbLowerBound || fixedP >= ProbUpperBound then
      Failure(RandProbException(fixedP))
    else
      Success(SkipList([[]], 0, fixedP))
  }

  /** `SkipList()` with the default probability. */
  function Default(): (r: SkipList)
    ensures Valid(r) && r.length == 0 && Elems(r) == multiset{}
    ensures r.p == DefaultProbability
  {
    New(DefaultProbability).value
  }

  /** The message `RandProbException.__str__` is meant to give. */
  function ProbMessage(e: ProbError): string {
    if e.fixedP <= ProbLowerBound then FixedPMinimum else FixedPMaximum
  }

  /** A rejected parameter yields the "greater than 0" message when it is at
      most 0 and the "less than 1" message when it is at least 1. */
  lemma RejectionMessage(fixedP: real)
    requires !ValidProbability(fixedP)
    ensures New(fixedP).Failure?
    ensures fixedP <= ProbLowerBound ==> ProbMessage(New(fixedP).error) == FixedPMinimum
    ensures fixedP >= ProbUpperBound ==> ProbMessage(New(fixedP).error) == FixedPMaximum
  {
  }

  /** Names bound at the top level of the skip list module. The exception class
      is nested in `SkipList`, so it is reachable only as
      `SkipList.RandProbException`. */
  const ModuleGlobals: set<string> := {"random", "BaseNode", "TailNode", "HeadNode", "ElementNode", "SkipList"}

  datatype NameError = NameError(name: string)

  /** How a bare name in a method body resolves: the method's locals (here
      only `self`), then the module globals. A class body is not an enclosing
      scope of the methods defined in it, and builtins do not define the names
      used here. */
  function ResolveBareName(name: string): Result<string, NameError> {
    if name == "self" || name in ModuleGlobals then Success(name) else Failure(NameError(name))
  }

  /** `RandProbException.__str__` as written: both branches look up the bare
      name `RandProbException` before reading its message constant. */
  function ProbMessageAsWritten(e: ProbError): Result<string, NameError> {
    match ResolveBareName("RandProbException")
    case Failure(err) => Failure(err)
    case Success(_) => Success(ProbMessage(e))
  }

  /** Converting the rejection for `p = 0` to text raises `NameError` instead of
      producing the "greater than 0" message. */
  lemma MessageLookupFails()
    ensures New(0.0).Failure?
    ensures ProbMessage(New(0.0).error) == FixedPMinimum
    ensures ProbMessageAsWritten(New(0.0).error) == Failure(NameError("RandProbException"))
  {
  }

  // ---------------------------------------------------------------------------
  // Search

  /** `_rec_search_before` over the levels below `n`, from the top down: the
      highest level whose before-node is followed by `x`, if any. */
  function RecSearchBefore(levels: seq<seq<int>>, n: nat, x: int): (r: Option<nat>)
    requires n <= |levels|
    ensures r.Some? ==> r.value < n && Found(levels[r.value], x)
    ensures r.Some? ==> forall i :: r.value < i < n ==> !Found(levels[i], x)
    ensures r.None? ==> forall i :: 0 <= i < n ==> !Found(levels[i], x)
    decreases n
  {
    if n == 0 then None
    else if Found(levels[n - 1], x) then Some(n - 1)
    else RecSearchBefore(levels, n - 1, x)
  }

  /** `search`: the stored value equal to `x`, or `None`. */
  function Search(s: SkipList, x: int): (r: Option<int>)
    requires Valid(s)
    ensures r == (if x in Elems(s) then Some(x) else None)
  {
    FoundIffMember(s.levels[0], x);
    match RecSearchBefore(s.levels, |s.levels|, x)
    case None => None
    case Some(lv) =>
      FoundIffMember(s.levels[lv], x);
      TowerDown(s.levels, lv, 0, x);
      Some(s.levels[lv][BeforeIndex(s.levels[lv], x)])
  }

  // ---------------------------------------------------------------------------
  // Insert

  /** Number of leading successful draws: how many levels above the bottom one
      insert reaches. */
  function Height(coins: seq<bool>): (h: nat)
    ensures h <= |coins|
    ensures forall i :: 0 <= i < h ==> coins[i]
    ensures h < |coins| ==> !coins[h]
  {
    if |coins| > 0 && coins[0] then 1 + Height(coins[1..]) else 0
  }

  /** Draws one insert makes: one per promotion attempt, up to and including
      the first failure. */
  function Consumed(coins: seq<bool>): (n: nat)
    ensures n <= |coins|
  {
    if Height(coins) < |coins| then Height(coins) + 1 else |coins|
  }

  /** `_rec_insert_level`: stacks a fresh level holding just `x` for each
      successful draw, lowest new level first. */
  function NewLevels(x: int, coins: seq<bool>): (r: seq<seq<int>>)
    ensures |r| == Height(coins)
    ensures forall i :: 0 <= i < |r| ==> r[i] == [x]
  {
    if |coins| > 0 && coins[0] then [[x]] + NewLevels(x, coins[1..]) else []
  }

  /** Levels `upper` after the first `h` of them receive `x`, with a fresh
      level holding only `x` for each of those beyond the existing ones. */
  predicate PromotedShape(upper: seq<seq<int>>, r: seq<seq<int>>, x: int, h: nat) {
    && |r| == (if h <= |upper| then |upper| else h)
    && forall i :: 0 <= i < |r| ==>
         r[i] == (if i < h then (if i < |upper| then InsertSorted(upper[i], x) else [x]) else upper[i])
  }

  /** One more existing level below a promoted stack. */
  lemma PromoteStep(upper: seq<seq<int>>, rest: seq<seq<int>>, x: int, h: nat)
    requires |upper| > 0
    requires PromotedShape(upper[1..], rest, x, h)
    ensures PromotedShape(upper, [InsertSorted(upper[0], x)] + rest, x, h + 1)
  {
    var r := [InsertSorted(upper[0], x)] + rest;
    forall i | 1 <= i < |r|
      ensures r[i] == (if i < h + 1 then (if i < |upper| then InsertSorted(upper[i], x) else [x]) else upper[i])
    {
      assert r[i] == rest[i - 1];
      if i < |upper| {
        assert upper[1..][i - 1] == upper[i];
      }
    }
  }

  /** The upward half of `_rec_insert` on the levels above the bottom one
      (`upper[0]` is level 1): a level receives `x` only if the level below did
      and the next draw succeeds; once the existing levels run out,
      `_rec_insert_level` takes over. */
  function Promote(upper: seq<seq<int>>, x: int, coins: seq<bool>): (r: seq<seq<int>>)
    ensures PromotedShape(upper, r, x, Height(coins))
    decreases |upper|
  {
    if |coins| == 0 || !coins[0] then upper
    else if |upper| == 0 then NewLevels(x, coins)
    else
      var rest := Promote(upper[1..], x, coins[1..]);
      PromoteStep(upper, rest, x, Height(coins[1..]));
      [InsertSorted(upper[0], x)] + rest
  }

  /** The shape an insert of `x` with promotion height `h` leaves: levels up to
      `h` receive `x` (fresh levels hold only `x`), the rest are unchanged. */
  predicate InsertedShape(old_: seq<seq<int>>, new_: seq<seq<int>>, x: int, h: nat) {
    && |new_| == (if h < |old_| then |old_| else h + 1)
    && forall i :: 0 <= i < |new_| ==>
         new_[i] == (if i <= h then (if i < |old_| then InsertSorted(old_[i], x) else [x]) else old_[i])
  }

  /** The level an insert of that shape leaves at position `i`. */
  lemma ShapeAt(old_: seq<seq<int>>, new_: seq<seq<int>>, x: int, h: nat, i: nat)
    requires InsertedShape(old_, new_, x, h)
    requires i < |new_|
    ensures i <= h && i < |old_| ==> new_[i] == InsertSorted(old_[i], x)
    ensures i <= h && i >= |old_| ==> new_[i] == [x]
    ensures i > h ==> i < |old_| && new_[i] == old_[i]
  {
  }

  /** One level above another in an insert of that shape still holds a
      sub-multiset of the one below. */
  lemma ShapePair(old_: seq<seq<int>>, new_: seq<seq<int>>, x: int, h: nat, i: nat)
    requires Tower(old_)
    requires InsertedShape(old_, new_, x, h)
    requires 0 < i < |new_|
    ensures multiset(new_[i]) <= multiset(new_[i - 1])
  {
    ShapeAt(old_, new_, x, h, i);
    ShapeAt(old_, new_, x, h, i - 1);
    if i <= h {
      assert x in multiset(new_[i - 1]);
      if i < |old_| {
        assert multiset(old_[i]) <= multiset(old_[i - 1]);
      }
    } else {
      assert multiset(old_[i]) <= multiset(old_[i - 1]);
    }
  }

  /** An insert of that shape keeps every level sorted, the tower property and
      the rule that only the top level may be empty. */
  lemma InsertedShapeKeepsInvariants(old_: seq<seq<int>>, new_: seq<seq<int>>, x: int, h: nat)
    requires |old_| >= 1
    requires LevelsSorted(old_) && Tower(old_) && EmptyOnlyAtTop(old_)
    requires InsertedShape(old_, new_, x, h)
    ensures LevelsSorted(new_) && Tower(new_) && EmptyOnlyAtTop(new_)
  {
    forall i | 0 <= i < |new_| ensures Sorted(new_[i]) {
      ShapeAt(old_, new_, x, h, i);
    }
    forall i | 0 < i < |new_| ensures multiset(new_[i]) <= multiset(new_[i - 1]) {
      ShapePair(old_, new_, x, h, i);
    }
    forall i | 0 <= i < |new_| - 1 ensures |new_[i]| > 0 {
      ShapeAt(old_, new_, x, h, i);
      if i > h {
        assert i < |old_| - 1;
      }
    }
  }

  /** The levels after `_rec_insert` and, where it runs out of levels,
      `_rec_insert_level`: the bottom level receives `x` unconditionally. */
  function InsertLevels(levels: seq<seq<int>>, x: int, coins: seq<bool>): (r: seq<seq<int>>)
    requires |levels| >= 1
    ensures InsertedShape(levels, r, x, Height(coins))
  {
    var upper := Promote(levels[1..], x, coins);
    PromotedToInserted(levels, upper, x, Height(coins));
    [InsertSorted(levels[0], x)] + upper
  }

  /** Promoting above a bottom level that received `x` is an insert of that shape. */
  lemma PromotedToInserted(levels: seq<seq<int>>, upper: seq<seq<int>>, x: int, h: nat)
    requires |levels| >= 1
    requires PromotedShape(levels[1..], upper, x, h)
    ensures InsertedShape(levels, [InsertSorted(levels[0], x)] + upper, x, h)
  {
    var r := [InsertSorted(levels[0], x)] + upper;
    forall i | 1 <= i < |r|
      ensures r[i] == (if i <= h then (if i < |levels| then InsertSorted(levels[i], x) else [x]) else levels[i])
    {
      assert r[i] == upper[i - 1];
      if i < |levels| {
        assert levels[1..][i - 1] == levels[i];
      }
    }
  }

  /** `insert`: the bottom level always receives `x`, right after the last
      node strictly smaller than it; level `i > 0` receives it exactly when
      the first `i` draws succeed, and a fresh level holding only `x` is stacked
      for each further success. The length rises by one. */
  function Insert(s: SkipList, x: int, coins: seq<bool>): (r: SkipList)
    requires Valid(s)
    ensures Valid(r)
    ensures Elems(r) == Elems(s) + multiset{x}
    ensures r.length == s.length + 1 && r.p == s.p
    ensures r.levels[0] == InsertAt(s.levels[0], BeforeIndex(s.levels[0], x), x)
    ensures InsertedShape(s.levels, r.levels, x, Height(coins))
  {
    var levels := InsertLevels(s.levels, x, coins);
    InsertedShapeKeepsInvariants(s.levels, levels, x, Height(coins));
    SkipList(levels, s.length + 1, s.p)
  }

  /** `insert_all`: inserts the values of `xs` in order, each insert drawing
      from where the previous one stopped. */
  function InsertAll(s: SkipList, xs: seq<int>, coins: seq<bool>): (r: (SkipList, seq<bool>))
    requires Valid(s)
    ensures Valid(r.0)
    ensures Elems(r.0) == Elems(s) + multiset(xs)
    ensures r.0.length == s.length + |xs| && r.0.p == s.p
    ensures |r.1| <= |coins|
    decreases |xs|
  {
    if |xs| == 0 then (s, coins)
    else
      var first := Insert(s, xs[0], coins);
      var r := InsertAll(first, xs[1..], coins[Consumed(coins)..]);
      assert multiset(xs) == multiset{xs[0]} + multiset(xs[1..]) by {
        assert xs == [xs[0]] + xs[1..];
      }
      r
  }

  // ---------------------------------------------------------------------------
  // Remove

  /** Unlinks the node after the before-node of `x` on one level. */
  function Unlink(l: seq<int>, x: int): (r: seq<int>)
    requires BeforeIndex(l, x) < |l|
    ensures Sorted(l) ==> Sorted(r)
  {
    DeleteAt(l, BeforeIndex(l, x))
  }

  /** Where the scan finds `x`, unlinking removes one copy of `x`. */
  lemma UnlinkMultiset(l: seq<int>, x: int)
    requires Found(l, x)
    ensures multiset(Unlink(l, x)) == multiset(l) - multiset{x}
  {
    DeleteAtMultiset(l, BeforeIndex(l, x));
  }

  /** `_rec_removal` on the levels below `n`, bottom-up: each level loses the
      node after its before-node, and the first level this empties is
      reported; the levels above it are neither changed nor kept. */
  function RecRemoval(levels: seq<seq<int>>, n: nat, x: int): (seq<seq<int>>, Option<nat>)
    requires n <= |levels|
    requires forall i :: 0 <= i < n ==> BeforeIndex(levels[i], x) < |levels[i]|
    decreases n
  {
    if n == 0 then ([], None)
    else
      var below := RecRemoval(levels, n - 1, x);
      if below.1.Some? then below
      else
        var l := Unlink(levels[n - 1], x);
        (below.0 + [l], if |l| == 0 then Some(n - 1) else None)
  }

  /** What `_rec_removal` returns: the unlinked levels from the bottom up to
      the first one left empty, which is the only empty one among them. */
  predicate RemovalOutcome(levels: seq<seq<int>>, n: nat, x: int, lower: seq<seq<int>>, emptied: Option<nat>)
    requires n <= |levels|
    requires forall i :: 0 <= i < n ==> BeforeIndex(levels[i], x) < |levels[i]|
  {
    && |lower| == (if emptied.Some? then emptied.value + 1 else n)
    && (emptied.Some? ==> emptied.value < n)
    && (forall i :: 0 <= i < |lower| ==> lower[i] == Unlink(levels[i], x))
    && (forall i :: 0 <= i < |lower| ==> (|lower[i]| == 0 <==> emptied == Some(i)))
  }

  lemma {:induction false} RecRemovalShape(levels: seq<seq<int>>, n: nat, x: int)
    requires n <= |levels|
    requires forall i :: 0 <= i < n ==> BeforeIndex(levels[i], x) < |levels[i]|
    ensures RemovalOutcome(levels, n, x, RecRemoval(levels, n, x).0, RecRemoval(levels, n, x).1)
    decreases n
  {
    if n > 0 {
      RecRemovalShape(levels, n - 1, x);
      var below := RecRemoval(levels, n - 1, x);
      if below.1.None? {
        var l := Unlink(levels[n - 1], x);
        GrowRemoval(levels, n, x, below.0, l);
        assert RecRemoval(levels, n, x) == (below.0 + [l], if |l| == 0 then Some(n - 1) else None);
      } else {
        assert RecRemoval(levels, n, x) == below;
      }
    }
  }

  /** One more level unlinked on top of a removal that emptied nothing. */
  lemma GrowRemoval(levels: seq<seq<int>>, n: nat, x: int, lower: seq<seq<int>>, l: seq<int>)
    requires 0 < n <= |levels|
    requires forall i :: 0 <= i < n ==> BeforeIndex(levels[i], x) < |levels[i]|
    requires RemovalOutcome(levels, n - 1, x, lower, None)
    requires l == Unlink(levels[n - 1], x)
    ensures RemovalOutcome(levels, n, x, lower + [l], if |l| == 0 then Some(n - 1) else None)
  {
    var grown := lower + [l];
    var emptied := if |l| == 0 then Some(n - 1) else None;
    forall i | 0 <= i < n
      ensures grown[i] == Unlink(levels[i], x)
      ensures |grown[i]| == 0 <==> emptied == Some(i)
    {
      if i < n - 1 {
        assert grown[i] == lower[i];
      }
    }
  }

  /** The levels `remove` leaves once `x` was found with `top` the highest
      level holding it. */
  function RemovedLevels(levels: seq<seq<int>>, top: nat, x: int): seq<seq<int>>
    requires top < |levels|
    requires forall i :: 0 <= i <= top ==> BeforeIndex(levels[i], x) < |levels[i]|
  {
    var (lower, emptied) := RecRemoval(levels, top + 1, x);
    if emptied.Some? then lower else lower + levels[top + 1..]
  }

  /** Each level `remove` keeps is unlinked when it lies at or below `top`
      and untouched above it, and only the top kept level may be empty. */
  lemma RemovedLevelsAt(levels: seq<seq<int>>, top: nat, x: int)
    requires EmptyOnlyAtTop(levels)
    requires top < |levels|
    requires forall i :: 0 <= i <= top ==> BeforeIndex(levels[i], x) < |levels[i]|
    ensures var r := RemovedLevels(levels, top, x);
      && 1 <= |r| <= |levels|
      && (forall i :: 0 <= i < |r| ==> r[i] == (if i <= top then Unlink(levels[i], x) else levels[i]))
      && EmptyOnlyAtTop(r)
  {
    RecRemovalShape(levels, top + 1, x);
    var (lower, emptied) := RecRemoval(levels, top + 1, x);
    var r := RemovedLevels(levels, top, x);
    assert r == if emptied.Some? then lower else lower + levels[top + 1..];
    forall i | 0 <= i < |r|
      ensures r[i] == (if i <= top then Unlink(levels[i], x) else levels[i])
      ensures i < |r| - 1 ==> |r[i]| > 0
    {
      if i <= top {
        assert i < |lower|;
      }
    }
  }

  /** Removal unlinks one copy of `x` from each level that holds one and keeps
      the invariants. */
  lemma RemovedLevelsShape(levels: seq<seq<int>>, top: nat, x: int)
    requires |levels| >= 1 && LevelsSorted(levels) && Tower(levels) && EmptyOnlyAtTop(levels)
    requires top < |levels| && x in levels[top]
    requires forall i :: top < i < |levels| ==> x !in levels[i]
    requires forall i :: 0 <= i <= top ==> Found(levels[i], x)
    requires forall i :: 0 <= i <= top ==> BeforeIndex(levels[i], x) < |levels[i]|
    ensures var r := RemovedLevels(levels, top, x);
      && 1 <= |r| <= |levels|
      && |r[0]| + 1 == |levels[0]|
      && LevelsSorted(r) && Tower(r) && EmptyOnlyAtTop(r)
      && (forall i :: 0 <= i < |r| ==>
            multiset(r[i]) == multiset(levels[i]) - (if x in levels[i] then multiset{x} else multiset{}))
  {
    RemovedLevelsAt(levels, top, x);
    var r := RemovedLevels(levels, top, x);
    forall i | 0 <= i < |r|
      ensures multiset(r[i]) == multiset(levels[i]) - (if x in levels[i] then multiset{x} else multiset{})
      ensures Sorted(r[i])
    {
      if i <= top {
        FoundIffMember(levels[i], x);
        UnlinkMultiset(levels[i], x);
      }
    }
    DropOneKeepsTower(levels, r, x);
  }

  /** Dropping at most one copy of `x` from each of two adjacent levels keeps
      the upper one inside the lower one. */
  lemma DropOnePair(upper: seq<int>, lower: seq<int>, upper': seq<int>, lower': seq<int>, x: int)
    requires multiset(upper) <= multiset(lower)
    requires multiset(upper') == multiset(upper) - (if x in upper then multiset{x} else multiset{})
    requires multiset(lower') == multiset(lower) - (if x in lower then multiset{x} else multiset{})
    ensures multiset(upper') <= multiset(lower')
  {
    if x in upper {
      assert x in multiset(lower);
    } else {
      assert multiset(upper)[x] == 0;
    }
  }

  /** If every level drops at most its one copy of `x`, the tower property still holds. */
  lemma DropOneKeepsTower(old_: seq<seq<int>>, new_: seq<seq<int>>, x: int)
    requires Tower(old_)
    requires |new_| <= |old_|
    requires forall i :: 0 <= i < |new_| ==>
      multiset(new_[i]) == multiset(old_[i]) - (if x in old_[i] then multiset{x} else multiset{})
    ensures Tower(new_)
  {
    forall i | 0 < i < |new_| ensures multiset(new_[i]) <= multiset(new_[i - 1]) {
      DropOnePair(old_[i], old_[i - 1], new_[i], new_[i - 1], x);
    }
  }

  /** The level `_rec_search_before` stops at is the highest level holding
      `x`, and the scan finds `x` on it and on every level below. */
  lemma HighestHolder(levels: seq<seq<int>>, top: nat, x: int)
    requires LevelsSorted(levels) && Tower(levels)
    requires RecSearchBefore(levels, |levels|, x) == Some(top)
    ensures top < |levels| && x in levels[top]
    ensures forall i :: 0 <= i <= top ==> Found(levels[i], x)
    ensures forall i :: 0 <= i <= top ==> BeforeIndex(levels[i], x) < |levels[i]|
    ensures forall i :: top < i < |levels| ==> x !in levels[i]
  {
    FoundIffMember(levels[top], x);
    forall i | 0 <= i <= top ensures Found(levels[i], x) {
      TowerDown(levels, top, i, x);
      FoundIffMember(levels[i], x);
    }
    forall i | top < i < |levels| ensures x !in levels[i] {
      FoundIffMember(levels[i], x);
    }
  }

  /** `remove`: if `x` is stored, one copy is unlinked from every level that
      holds one, from the highest such level down, the list drops the levels
      above the lowest level this empties, the length falls by one and the
      result is true; otherwise nothing changes and the result is false. */
  function Remove(s: SkipList, x: int): (r: (SkipList, bool))
    requires Valid(s)
    ensures Valid(r.0)
    ensures r.1 <==> x in Elems(s)
    ensures r.1 ==> Elems(r.0) == Elems(s) - multiset{x} && r.0.length == s.length - 1
    ensures !r.1 ==> r.0 == s
    ensures r.0.p == s.p && |r.0.levels| <= |s.levels|
    ensures forall i :: 0 <= i < |r.0.levels| ==>
      multiset(r.0.levels[i]) == multiset(s.levels[i]) - (if x in s.levels[i] then multiset{x} else multiset{})
  {
    FoundIffMember(s.levels[0], x);
    match RecSearchBefore(s.levels, |s.levels|, x)
    case None => (s, false)
    case Some(top) =>
      HighestHolder(s.levels, top, x);
      RemovedLevelsShape(s.levels, top, x);
      (SkipList(RemovedLevels(s.levels, top, x), s.length - 1, s.p), true)
  }

  // ---------------------------------------------------------------------------
  // Count and length

  /** The loop `while start == elem` of `count`: the length of the run of `x`
      starting at position `j`. */
  function CountRun(l: seq<int>, x: int, j: nat): (c: nat)
    requires j <= |l|
    ensures j + c <= |l|
    ensures forall i :: j <= i < j + c ==> l[i] == x
    ensures j + c < |l| ==> l[j + c] != x
    decreases |l| - j
  {
    if j < |l| && l[j] == x then 1 + CountRun(l, x, j + 1) else 0
  }

  /** A sequence without `x` holds no copy of it. */
  lemma Absent(l: seq<int>, x: int)
    requires forall i :: 0 <= i < |l| ==> l[i] != x
    ensures multiset(l)[x] == 0
  {
    assert x !in l;
  }

  /** In a sorted level, from a position whose value is not below `x`, the run
      of `x` is every remaining copy of `x`. */
  lemma {:induction false} RunFrom(l: seq<int>, x: int, j: nat)
    requires Sorted(l) && j <= |l|
    requires j < |l| ==> x <= l[j]
    ensures CountRun(l, x, j) == multiset(l[j..])[x]
    decreases |l| - j
  {
    if j < |l| {
      assert l[j..] == [l[j]] + l[j + 1..];
      if l[j] == x {
        RunFrom(l, x, j + 1);
      } else {
        Absent(l[j..], x);
      }
    }
  }

  /** From the before-node of `x` in a sorted level, the run of `x` is all of
      its copies. */
  lemma CountRunIsMultiplicity(l: seq<int>, x: int)
    requires Sorted(l)
    ensures CountRun(l, x, BeforeIndex(l, x)) == multiset(l)[x]
  {
    var k := BeforeIndex(l, x);
    RunFrom(l, x, k);
    SmallerPrefix(l, x, k);
  }

  /** Copies of `x` after a prefix of values below `x` are all of them. */
  lemma SmallerPrefix(l: seq<int>, x: int, k: nat)
    requires k <= |l|
    requires forall i :: 0 <= i < k ==> l[i] < x
    ensures multiset(l)[x] == multiset(l[k..])[x]
  {
    assert l == l[..k] + l[k..];
    Absent(l[..k], x);
  }

  /** `count`: the number of stored copies of `x`. */
  function Count(s: SkipList, x: int): (c: nat)
    requires Valid(s)
    ensures c == Elems(s)[x]
  {
    CountRunIsMultiplicity(s.levels[0], x);
    CountRun(s.levels[0], x, BeforeIndex(s.levels[0], x))
  }

  /** `ElementNode.count` on the node at position `j` of a level: stops at the
      tail or at the first value above `x`, counting the values equal to `x`. */
  function NodeCount(l: seq<int>, x: int, j: nat): (c: nat)
    requires j <= |l|
    ensures Sorted(l) ==> c == multiset(l[j..])[x]
    decreases |l| - j
  {
    if j == |l| then 0
    else if l[j] > x then
      assert Sorted(l) ==> multiset(l[j..])[x] == 0 by {
        if Sorted(l) {
          Absent(l[j..], x);
        }
      }
      0
    else
      assert l[j..] == [l[j]] + l[j + 1..];
      (if l[j] == x then 1 else 0) + NodeCount(l, x, j + 1)
  }

  /** `__len__`: the stored counter, which is the number of stored copies. */
  function Len(s: SkipList): (n: int)
    requires Valid(s)
    ensures n == |Elems(s)|
  {
    s.length
  }

  // ---------------------------------------------------------------------------
  // Iteration

  /** `_SkipIterator` over a bottom level: yields the values left to right; in
      unique mode it skips nodes equal to the last value it yielded. */
  function Walk(l: seq<int>, unique: bool, last: Option<int>): seq<int>
    decreases |l|
  {
    if |l| == 0 then []
    else if unique && last == Some(l[0]) then Walk(l[1..], unique, last)
    else [l[0]] + Walk(l[1..], unique, if unique then Some(l[0]) else last)
  }

  lemma {:induction false} WalkAll(l: seq<int>, last: Option<int>)
    ensures Walk(l, false, last) == l
    decreases |l|
  {
    if |l| > 0 {
      WalkAll(l[1..], last);
    }
  }

  /** In unique mode over a sorted level, the walk yields each value of the
      level except one equal to the last value yielded. */
  lemma {:induction false} WalkUniqueMembers(l: seq<int>, last: Option<int>)
    requires Sorted(l)
    requires last.Some? && |l| > 0 ==> last.value <= l[0]
    ensures forall v :: v in Walk(l, true, last) <==> v in l && last != Some(v)
    decreases |l|
  {
    if |l| > 0 {
      var tail := l[1..];
      assert l == [l[0]] + tail;
      SortedTail(l);
      if last == Some(l[0]) {
        WalkUniqueMembers(tail, last);
      } else {
        WalkUniqueMembers(tail, Some(l[0]));
        assert forall v :: v in l ==> l[0] <= v;
      }
    }
  }

  /** In unique mode over a sorted level, the walk yields strictly increasing
      values, all above the last value yielded. */
  lemma {:induction false} WalkUniqueOrdered(l: seq<int>, last: Option<int>)
    requires Sorted(l)
    requires last.Some? && |l| > 0 ==> last.value <= l[0]
    ensures StrictlyIncreasing(Walk(l, true, last))
    ensures last.Some? ==> forall i :: 0 <= i < |Walk(l, true, last)| ==> last.value < Walk(l, true, last)[i]
    decreases |l|
  {
    if |l| > 0 {
      var tail := l[1..];
      SortedTail(l);
      if last == Some(l[0]) {
        WalkUniqueOrdered(tail, last);
      } else {
        WalkUniqueOrdered(tail, Some(l[0]));
        var rest := Walk(tail, true, Some(l[0]));
        var w := [l[0]] + rest;
        assert Walk(l, true, last) == w;
        forall i, j | 0 <= i < j < |w| ensures w[i] < w[j] {
          assert w[j] == rest[j - 1];
          if i > 0 {
            assert w[i] == rest[i - 1];
          }
        }
        if last.Some? {
          forall i | 0 <= i < |w| ensures last.value < w[i] {
            if i > 0 {
              assert w[i] == rest[i - 1];
            }
          }
        }
      }
    }
  }

  /** `__iter__`: every stored value in order, sentinels excluded. */
  function Values(s: SkipList): (r: seq<int>)
    requires Valid(s)
    ensures r == s.levels[0]
    ensures Sorted(r) && multiset(r) == Elems(s)
  {
    WalkAll(s.levels[0], None);
    Walk(s.levels[0], false, None)
  }

  /** `unique_iter`: each distinct stored value once, in increasing order. */
  function UniqueValues(s: SkipList): (r: seq<int>)
    requires Valid(s)
    ensures StrictlyIncreasing(r)
    ensures forall v :: v in r <==> v in Elems(s)
  {
    WalkUniqueMembers(s.levels[0], None);
    WalkUniqueOrdered(s.levels[0], None);
    Walk(s.levels[0], true, None)
  }

  // ---------------------------------------------------------------------------
  // Equality and concatenation

  /** The comparison loop of `__eq__`: pairs of values are compared until either
      iterator stops. */
  function PairwiseEqual(xs: seq<int>, ys: seq<int>): (r: bool)
    ensures r <==> forall i :: 0 <= i < |xs| && i < |ys| ==> xs[i] == ys[i]
    decreases |xs|
  {
    if |xs| == 0 || |ys| == 0 then true
    else
      assert forall i :: 1 <= i < |xs| && i < |ys| ==> xs[1..][i - 1] == xs[i] && ys[1..][i - 1] == ys[i];
      xs[0] == ys[0] && PairwiseEqual(xs[1..], ys[1..])
  }

  /** `__eq__`: the lengths agree and so do the values position by position,
      which for sorted levels means the same stored multiset. */
  function Equal(a: SkipList, b: SkipList): (r: bool)
    requires Valid(a) && Valid(b)
    ensures r <==> Elems(a) == Elems(b)
    ensures r <==> a.levels[0] == b.levels[0]
  {
    var r := a.length == b.length && PairwiseEqual(Values(a), Values(b));
    assert Elems(a) == Elems(b) ==> a.levels[0] == b.levels[0] by {
      if Elems(a) == Elems(b) {
        SortedUnique(a.levels[0], b.levels[0]);
      }
    }
    assert r ==> a.levels[0] == b.levels[0] by {
      if r {
        assert |a.levels[0]| == |b.levels[0]|;
        assert forall i :: 0 <= i < |a.levels[0]| ==> a.levels[0][i] == b.levels[0][i];
      }
    }
    r
  }

  /** `new_averaged_skip_list`: an empty list whose probability is the mean of
      the operands'; the mean of two values in (0, 1) is in (0, 1), so the
      constructor never raises here. */
  function NewAveraged(a: SkipList, b: SkipList): (r: Result<SkipList, ProbError>)
    requires ValidProbability(a.p) && ValidProbability(b.p)
    ensures r.Success? && Valid(r.value)
    ensures r.value.length == 0 && r.value.p == (a.p + b.p) / 2.0
  {
    New((a.p + b.p) / 2.0)
  }

  /** `__add__`: a new list holding every value of `a` then every value of `b`;
      also returns the unused draws. */
  function Concat(a: SkipList, b: SkipList, coins: seq<bool>): (r: (SkipList, seq<bool>))
    requires Valid(a) && Valid(b)
    ensures Valid(r.0)
    ensures Elems(r.0) == Elems(a) + Elems(b)
    ensures r.0.length == a.length + b.length
    ensures r.0.p == (a.p + b.p) / 2.0
  {
    var start := NewAveraged(a, b).value;
    var (s1, c1) := InsertAll(start, Values(a), coins);
    InsertAll(s1, Values(b), c1)
  }

  /** `__iadd__`: inserts every value of `b` into `a`. */
  function ConcatInPlace(a: SkipList, b: SkipList, coins: seq<bool>): (r: (SkipList, seq<bool>))
    requires Valid(a) && Valid(b)
    ensures Valid(r.0)
    ensures Elems(r.0) == Elems(a) + Elems(b)
    ensures r.0.length == a.length + b.length && r.0.p == a.p
  {
    InsertAll(a, Values(b), coins)
  }
}
