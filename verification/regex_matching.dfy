/** Matching a string against a regex tree. The matcher does not answer yes
    or no directly: for a tree and a string it computes a set of end
    positions, each saying that the tree matches the string up to there. A
    position past the end of the string stands for the whole string, because
    `e` and `*` report `1` on the empty string. */
module RegexMatching {
  import opened Outcomes
  import opened RegexSyntax

  /** The number of nodes of a tree. */
  function Size(t: Tree): (n: nat)
    ensures n >= 1
  {
    match t
    case Leaf(_) => 1
    case Star(c) => 1 + Size(c)
    case Dot(l, r) => 1 + Size(l) + Size(r)
    case Bar(l, r) => 1 + Size(l) + Size(r)
  }

  /** An end position read against a string of length `n`: positions past
      the end mean the end. */
  function Clamp(j: nat, n: nat): (c: nat)
    ensures c <= n && c <= j
    ensures c == j || c == n
  {
    if j <= n then j else n
  }

  // ---------------------------------------------------------------------------
  // The language of a tree

  /** The strings a tree matches, as the documentation of `regex_match`
      words it: a leaf matches its own one character and `e` the empty
      string; a star matches the empty string or one non-empty match of its
      child followed by a match of the star; a bar matches what either side
      matches; a dot matches a left match followed by a right match. */
  predicate InLang(t: Tree, w: string)
    decreases t, |w|, 1
  {
    match t
    case Leaf(sym) => if sym == [MatchEmpty] then w == [] else w == sym
    case Star(c) => w == [] || exists k :: 0 < k <= |w| && StarSplit(c, w, k)
    case Bar(l, r) => InLang(l, w) || InLang(r, w)
    case Dot(l, r) => exists k :: 0 <= k <= |w| && DotSplit(l, r, w, k)
  }

  /** The first `k > 0` characters match the child and the rest the star. */
  predicate StarSplit(c: Tree, w: string, k: nat)
    decreases Star(c), |w|, 0
  {
    0 < k <= |w| && InLang(c, w[..k]) && InLang(Star(c), w[k..])
  }

  /** The first `k` characters match the left side and the rest the right. */
  predicate DotSplit(l: Tree, r: Tree, w: string, k: nat)
    decreases Dot(l, r), |w|, 0
  {
    k <= |w| && InLang(l, w[..k]) && InLang(r, w[k..])
  }

  /** One match of the child is a match of the star. */
  lemma SingleStar(c: Tree, v: string)
    requires InLang(c, v)
    ensures InLang(Star(c), v)
  {
    if v != [] {
      assert v[..|v|] == v && v[|v|..] == [];
      StarIntro(c, v, |v|);
    }
  }

  /** A non-empty match of the child followed by a match of the star is a
      match of the star. */
  lemma StarIntro(c: Tree, w: string, k: nat)
    requires 0 < k <= |w| && InLang(c, w[..k]) && InLang(Star(c), w[k..])
    ensures InLang(Star(c), w)
  {
    assert StarSplit(c, w, k);
  }

  /** A non-empty match of a star splits into a non-empty match of the
      child followed by a match of the star. */
  lemma StarElim(c: Tree, w: string)
    requires w != [] && InLang(Star(c), w)
    ensures exists k :: 0 < k <= |w| && StarSplit(c, w, k)
  {
  }

  /** Two matches of a star in a row are a match of the star. */
  lemma {:induction false} StarAppend(c: Tree, u: string, v: string)
    requires InLang(Star(c), u) && InLang(Star(c), v)
    ensures InLang(Star(c), u + v)
    decreases |u|
  {
    if u == [] {
      assert u + v == v;
    } else {
      var k :| 0 < k <= |u| && StarSplit(c, u, k);
      var uv := u + v;
      assert InLang(c, uv[..k]) by {
        assert uv[..k] == u[..k];
      }
      assert InLang(Star(c), uv[k..]) by {
        StarAppend(c, u[k..], v);
        assert uv[k..] == u[k..] + v;
      }
      StarIntro(c, uv, k);
    }
  }

  /** A star of a star matches what the inner star matches. */
  lemma {:induction false} StarOfStar(c: Tree, w: string)
    ensures InLang(Star(Star(c)), w) <==> InLang(Star(c), w)
    decreases |w|
  {
    if w != [] {
      if InLang(Star(Star(c)), w) {
        StarElim(Star(c), w);
        var k :| 0 < k <= |w| && StarSplit(Star(c), w, k);
        StarOfStar(c, w[k..]);
        StarAppend(c, w[..k], w[k..]);
        assert w[..k] + w[k..] == w;
      }
      if InLang(Star(c), w) {
        assert w[..|w|] == w && w[|w|..] == [];
        StarIntro(Star(c), w, |w|);
      }
    }
  }

  // ---------------------------------------------------------------------------
  // The matcher

  /** `_apply_basic_regex`: `e` gives `{1}` on the empty string and `{0}`
      otherwise; any other symbol gives `{1}` when it equals the first
      character, and nothing otherwise. */
  function ApplyBasic(sym: string, s: string): (r: set<nat>)
    ensures forall j :: j in r ==> j <= 1
    ensures sym != [MatchEmpty] ==> forall j :: j in r ==> j == 1 && |s| > 0 && sym == [s[0]]
  {
    if sym == [MatchEmpty] then (if |s| == 0 then {1} else {0})
    else if |s| > 0 then (if sym == [s[0]] then {1} else {})
    else {}
  }

  /** `_regex_match_helper`: the end positions at which `t` matches a
      prefix of `s`. None exceeds the length by more than the tree's size. */
  function MatchIndices(t: Tree, s: string): (r: set<nat>)
    ensures forall j :: j in r ==> j <= |s| + Size(t)
    decreases t, 3, 0
  {
    match t
    case Leaf(sym) => ApplyBasic(sym, s)
    case Star(c) => ApplyStar(c, s)
    case Bar(l, rt) => ApplyBar(l, rt, s)
    case Dot(l, rt) => ApplyDot(l, rt, s)
  }

  /** `_apply_bar_regex`: the positions either side reaches. */
  function ApplyBar(l: Tree, rt: Tree, s: string): (r: set<nat>)
    ensures forall j :: j in r ==> j <= |s| + Size(l) + Size(rt)
    decreases Bar(l, rt), 1, 0
  {
    MatchIndices(l, s) + MatchIndices(rt, s)
  }

  /** `_apply_dot_regex`: for each position the left side reaches, the
      positions the right side reaches on the rest of the string, offset by
      it. */
  function ApplyDot(l: Tree, rt: Tree, s: string): (r: set<nat>)
    ensures forall j :: j in r ==> j <= |s| + Size(l) + Size(rt)
    decreases Dot(l, rt), 1, 0
  {
    var left := MatchIndices(l, s);
    set li, ri | li in left && ri in MatchIndices(rt, Drop(s, li)) :: li + ri
  }

  /** `_apply_star_regex`: `{1}` on the empty string; a star directly under
      the star is looked through; otherwise the work list of start positions. */
  function ApplyStar(c: Tree, s: string): (r: set<nat>)
    ensures forall j :: j in r ==> j <= |s| + Size(c)
    ensures |s| == 0 ==> r == {1}
    ensures |s| > 0 ==> 0 in r
    decreases Star(c), 2, 0
  {
    if |s| == 0 then {1}
    else
      match c
      case Star(inner) => ApplyStar(inner, s)
      case _ => StarLoop(c, s, [0], 0)
  }

  /** No value occurs twice. */
  predicate Distinct(xs: seq<nat>) {
    forall i, j :: 0 <= i < j < |xs| ==> xs[i] != xs[j]
  }

  /** The inner loop of `_apply_star_regex`: for each match length `p` of the
      child (taken in increasing order, from `p` up to `top`), schedules
      `start + p` unless it is already in the work list. */
  function Schedule(indices: seq<nat>, start: nat, m: set<nat>, p: nat, top: nat): (r: seq<nat>)
    requires Distinct(indices)
    ensures Distinct(r)
    ensures |indices| <= |r| && r[..|indices|] == indices
    ensures forall j :: j in r <==> j in indices || (start + p <= j <= start + top && j - start in m)
    decreases top + 1 - p
  {
    if p > top then indices
    else
      var next := if p in m && start + p !in indices then indices + [start + p] else indices;
      var r := Schedule(next, start, m, p + 1, top);
      assert r[..|indices|] == next[..|indices|];
      r
  }

  /** The positions of a work list, as a set. */
  function Elements(xs: seq<nat>): set<nat> {
    set j | j in xs
  }

  /** One turn of the work loop of `_apply_star_regex`: the start position
      at `it`, when it lies inside the string, has every position the child
      reaches from it scheduled; the list only grows, by new positions. */
  function Advance(c: Tree, s: string, indices: seq<nat>, it: nat): (r: seq<nat>)
    requires it < |indices| && Distinct(indices)
    requires forall j :: j in indices ==> j <= |s| + Size(c)
    ensures Distinct(r) && |indices| <= |r| && r[..|indices|] == indices
    ensures forall j :: j in r ==> j <= |s| + Size(c)
    ensures forall j :: j in r <==> j in indices || (indices[it] < |s| && indices[it] <= j && j - indices[it] in MatchIndices(c, s[indices[it]..]))
    decreases Star(c), 0, 0
  {
    var start := indices[it];
    if start < |s| then Schedule(indices, start, MatchIndices(c, s[start..]), 0, |s| - start + Size(c))
    else indices
  }

  /** The work loop of `_apply_star_regex`, from position `it` of the work
      list on; the result is the set of scheduled positions. The list stays
      duplicate-free and bounded, so the loop ends. */
  function StarLoop(c: Tree, s: string, indices: seq<nat>, it: nat): (r: set<nat>)
    requires it <= |indices| && Distinct(indices)
    requires forall j :: j in indices ==> j <= |s| + Size(c)
    ensures forall j :: j in r ==> j <= |s| + Size(c)
    ensures forall j :: j in indices ==> j in r
    decreases Star(c), 1, |s| + Size(c) + 1 - it
  {
    if it == |indices| then Elements(indices)
    else
      DistinctBounded(indices, |s| + Size(c));
      StarLoop(c, s, Advance(c, s, indices, it), it + 1)
  }

  /** Some end position lies at or past the end of an `n`-character string. */
  predicate Reaches(indices: set<nat>, n: nat) {
    |indices| > 0 && exists j :: j in indices && j >= n
  }

  /** `regex_match`: raises `InvalidRegexTreeException` on an invalid tree;
      otherwise the match succeeds when some end position reaches the end of
      the string (the source asks whether the largest one does). */
  function RegexMatch(t: Tree, s: string): (r: Result<bool, RegexError>)
    ensures r.Failure? <==> !IsValidTree(t)
    ensures r.Failure? ==> r.error == InvalidRegexTreeException(UnsupportedTree)
    ensures r.Success? ==> (r.value <==> InLang(t, s))
  {
    if !IsValidTree(t) then Failure(InvalidRegexTreeException(UnsupportedTree))
    else
      MatchMeaning(t, s);
      Success(Reaches(MatchIndices(t, s), |s|))
  }

  // ---------------------------------------------------------------------------
  // The work list is bounded

  lemma {:induction false} DistinctCard(xs: seq<nat>)
    requires Distinct(xs)
    ensures |Elements(xs)| == |xs|
    decreases |xs|
  {
    if |xs| > 0 {
      var front := xs[..|xs| - 1];
      var last := xs[|xs| - 1];
      DistinctCard(front);
      assert xs == front + [last];
      assert last !in Elements(front);
      assert Elements(xs) == Elements(front) + {last};
      assert Elements(front) !! {last};
    } else {
      assert Elements(xs) == {};
    }
  }

  /** A set of naturals no greater than `b` has at most `b + 1` members. */
  lemma {:induction false} BoundedCard(a: set<nat>, b: nat)
    requires forall j :: j in a ==> j <= b
    ensures |a| <= b + 1
    decreases b
  {
    if b == 0 {
      assert a <= {0};
      if a != {} {
        assert a == {0};
      }
    } else {
      BoundedCard(a - {b}, b - 1);
    }
  }

  /** A duplicate-free list of positions no greater than `b` has at most
      `b + 1` entries: the work list of the star loop cannot grow forever. */
  lemma DistinctBounded(xs: seq<nat>, b: nat)
    requires Distinct(xs)
    requires forall j :: j in xs ==> j <= b
    ensures |xs| <= b + 1
  {
    DistinctCard(xs);
    BoundedCard(Elements(xs), b);
  }

  // ---------------------------------------------------------------------------
  // Soundness: every end position marks a prefix in the language

  predicate SoundFor(t: Tree, w: string) {
    forall j :: j in MatchIndices(t, w) ==> InLang(t, w[..Clamp(j, |w|)])
  }

  /** The end position `li + ri` of a dot marks a left match then a right
      match. */
  lemma DotPieceSound(l: Tree, r: Tree, w: string, li: nat, ri: nat)
    requires InLang(l, w[..Clamp(li, |w|)])
    requires InLang(r, Drop(w, li)[..Clamp(ri, |Drop(w, li)|)])
    ensures InLang(Dot(l, r), w[..Clamp(li + ri, |w|)])
  {
    var k := Clamp(li, |w|);
    var u := w[..Clamp(li + ri, |w|)];
    var v := Drop(w, li)[..Clamp(ri, |Drop(w, li)|)];
    assert u[..k] == w[..k];
    assert u[k..] == v by {
      if li <= |w| {
        assert k == li && Drop(w, li) == w[li..];
        assert |u| == li + |v|;
        forall i | 0 <= i < |v| ensures u[k + i] == v[i] {
        }
      } else {
        assert |u[k..]| == 0 == |v|;
      }
    }
    assert DotSplit(l, r, u, k);
  }

  /** All positions of a list mark prefixes the star matches. */
  predicate AllSound(c: Tree, s: string, xs: seq<nat>) {
    forall j :: j in xs ==> InLang(Star(c), s[..Clamp(j, |s|)])
  }

  /** A position the child reaches from a sound start is sound. */
  lemma StarStep(c: Tree, s: string, start: nat, p: nat)
    requires start < |s|
    requires InLang(Star(c), s[..start])
    requires InLang(c, s[start..][..Clamp(p, |s| - start)])
    ensures InLang(Star(c), s[..Clamp(start + p, |s|)])
  {
    var piece := s[start..][..Clamp(p, |s| - start)];
    SingleStar(c, piece);
    StarAppend(c, s[..start], piece);
    assert s[..Clamp(start + p, |s|)] == s[..start] + piece;
  }

  /** Every position the work loop collects is sound, given the child is. */
  lemma {:induction false} StarLoopSound(c: Tree, s: string, indices: seq<nat>, it: nat)
    requires it <= |indices| && Distinct(indices)
    requires forall j :: j in indices ==> j <= |s| + Size(c)
    requires AllSound(c, s, indices)
    requires forall st :: 0 <= st < |s| ==> SoundFor(c, s[st..])
    ensures forall j :: j in StarLoop(c, s, indices, it) ==> InLang(Star(c), s[..Clamp(j, |s|)])
    decreases |s| + Size(c) + 1 - it
  {
    if it < |indices| {
      DistinctBounded(indices, |s| + Size(c));
      var next := Advance(c, s, indices, it);
      AdvanceSound(c, s, indices, it);
      StarLoopSound(c, s, next, it + 1);
    }
  }

  /** One turn of the work loop keeps every position sound. */
  lemma AdvanceSound(c: Tree, s: string, indices: seq<nat>, it: nat)
    requires it < |indices| && Distinct(indices)
    requires forall j :: j in indices ==> j <= |s| + Size(c)
    requires AllSound(c, s, indices)
    requires forall st :: 0 <= st < |s| ==> SoundFor(c, s[st..])
    ensures AllSound(c, s, Advance(c, s, indices, it))
  {
    var start := indices[it];
    var next := Advance(c, s, indices, it);
    forall j | j in next ensures InLang(Star(c), s[..Clamp(j, |s|)]) {
      if j !in indices {
        assert start in indices;
        assert SoundFor(c, s[start..]);
        StarStep(c, s, start, j - start);
      }
    }
  }

  /** The matcher is sound: each end position of a valid tree marks a prefix
      the tree matches. */
  lemma {:induction false} Sound(t: Tree, w: string)
    requires IsValidTree(t)
    ensures SoundFor(t, w)
    decreases t
  {
    match t
    case Leaf(sym) =>
      if sym != [MatchEmpty] {
        forall j | j in MatchIndices(t, w) ensures InLang(t, w[..Clamp(j, |w|)]) {
          assert w[..1] == [w[0]];
        }
      }
    case Bar(l, r) =>
      Sound(l, w);
      Sound(r, w);
    case Dot(l, r) =>
      Sound(l, w);
      forall j | j in MatchIndices(t, w) ensures InLang(t, w[..Clamp(j, |w|)]) {
        assert j in ApplyDot(l, r, w);
        var li, ri :| li in MatchIndices(l, w) && ri in MatchIndices(r, Drop(w, li)) && j == li + ri;
        Sound(r, Drop(w, li));
        DotPieceSound(l, r, w, li, ri);
      }
    case Star(c) =>
      if |w| > 0 {
        match c
        case Star(cc) =>
          Sound(c, w);
          assert MatchIndices(c, w) == ApplyStar(cc, w);
          assert MatchIndices(t, w) == ApplyStar(c, w) == ApplyStar(cc, w);
          forall j | j in MatchIndices(t, w) ensures InLang(t, w[..Clamp(j, |w|)]) {
            StarOfStar(cc, w[..Clamp(j, |w|)]);
          }
        case _ =>
          forall st | 0 <= st < |w| ensures SoundFor(c, w[st..]) {
            Sound(c, w[st..]);
          }
          StarLoopSound(c, w, [0], 0);
      }
  }

  // ---------------------------------------------------------------------------
  // Completeness: every prefix in the language has an end position

  predicate CompleteFor(t: Tree, w: string) {
    forall k :: 0 <= k <= |w| && InLang(t, w[..k]) ==> exists j :: j in MatchIndices(t, w) && Clamp(j, |w|) == k
  }

  /** The child's matches from every collected start are collected. */
  predicate Closed(c: Tree, s: string, r: set<nat>) {
    forall st, p :: st in r && st < |s| && p in MatchIndices(c, s[st..]) ==> st + p in r
  }

  /** The start at `st` has had its successors scheduled into `xs`. */
  predicate Expanded(c: Tree, s: string, xs: seq<nat>, st: nat) {
    st < |s| ==> forall p :: p in MatchIndices(c, s[st..]) ==> st + p in xs
  }

  /** The work loop ends with a set closed under the child's matches. */
  lemma {:induction false} StarLoopClosed(c: Tree, s: string, indices: seq<nat>, it: nat)
    requires it <= |indices| && Distinct(indices)
    requires forall j :: j in indices ==> j <= |s| + Size(c)
    requires forall i :: 0 <= i < it ==> Expanded(c, s, indices, indices[i])
    ensures Closed(c, s, StarLoop(c, s, indices, it))
    decreases |s| + Size(c) + 1 - it
  {
    if it == |indices| {
      assert StarLoop(c, s, indices, it) == Elements(indices);
      AllExpandedClosed(c, s, indices);
    } else {
      DistinctBounded(indices, |s| + Size(c));
      AdvanceExpands(c, s, indices, it);
      StarLoopClosed(c, s, Advance(c, s, indices, it), it + 1);
    }
  }

  /** Once every start is expanded, the positions of the list are closed. */
  lemma AllExpandedClosed(c: Tree, s: string, indices: seq<nat>)
    requires forall i :: 0 <= i < |indices| ==> Expanded(c, s, indices, indices[i])
    ensures Closed(c, s, Elements(indices))
  {
    var r := Elements(indices);
    forall st, p | st in r && st < |s| && p in MatchIndices(c, s[st..]) ensures st + p in r {
      var i :| 0 <= i < |indices| && indices[i] == st;
      assert Expanded(c, s, indices, indices[i]);
    }
  }

  /** After one turn, the first `it + 1` starts have been expanded. */
  lemma AdvanceExpands(c: Tree, s: string, indices: seq<nat>, it: nat)
    requires it < |indices| && Distinct(indices)
    requires forall j :: j in indices ==> j <= |s| + Size(c)
    requires forall i :: 0 <= i < it ==> Expanded(c, s, indices, indices[i])
    ensures var next := Advance(c, s, indices, it);
      forall i :: 0 <= i < it + 1 ==> Expanded(c, s, next, next[i])
  {
    var next := Advance(c, s, indices, it);
    AdvanceGrows(c, s, indices, it);
    AdvanceExpandsCurrent(c, s, indices, it);
    forall i | 0 <= i < it + 1 ensures Expanded(c, s, next, next[i]) {
      assert next[i] == next[..|indices|][i] == indices[i];
      if i < it {
        ExpandedGrows(c, s, indices, next, indices[i]);
      }
    }
  }

  /** One turn only adds to the work list. */
  lemma AdvanceGrows(c: Tree, s: string, indices: seq<nat>, it: nat)
    requires it < |indices| && Distinct(indices)
    requires forall j :: j in indices ==> j <= |s| + Size(c)
    ensures forall j :: j in indices ==> j in Advance(c, s, indices, it)
  {
  }

  /** A start stays expanded as the work list grows. */
  lemma ExpandedGrows(c: Tree, s: string, xs: seq<nat>, ys: seq<nat>, st: nat)
    requires Expanded(c, s, xs, st)
    requires forall j :: j in xs ==> j in ys
    ensures Expanded(c, s, ys, st)
  {
  }

  /** One turn expands the start at `it`. */
  lemma AdvanceExpandsCurrent(c: Tree, s: string, indices: seq<nat>, it: nat)
    requires it < |indices| && Distinct(indices)
    requires forall j :: j in indices ==> j <= |s| + Size(c)
    ensures Expanded(c, s, Advance(c, s, indices, it), indices[it])
  {
    var next := Advance(c, s, indices, it);
    var st := indices[it];
    if st < |s| {
      forall p | p in MatchIndices(c, s[st..]) ensures st + p in next {
        assert st <= st + p && (st + p) - st == p;
      }
    }
  }

  /** From a collected start `start`, any end `k` the star can reach by
      matching `s[start..k]` is collected (up to clamping). */
  lemma {:induction false} StarReach(c: Tree, s: string, r: set<nat>, start: nat, k: nat)
    requires Closed(c, s, r) && start in r
    requires start <= k <= |s|
    requires InLang(Star(c), s[start..k])
    requires forall st :: 0 <= st < |s| ==> CompleteFor(c, s[st..])
    ensures exists j :: j in r && Clamp(j, |s|) == k
    decreases k - start
  {
    if start < k {
      var w := s[start..k];
      var m :| 0 < m <= |w| && StarSplit(c, w, m);
      assert w[..m] == s[start..][..m];
      assert CompleteFor(c, s[start..]);
      var p :| p in MatchIndices(c, s[start..]) && Clamp(p, |s| - start) == m;
      assert start + p in r;
      if p <= |s| - start {
        assert w[m..] == s[start + m..k];
        StarReach(c, s, r, start + m, k);
      } else {
        assert Clamp(start + p, |s|) == k;
      }
    } else {
      assert Clamp(start, |s|) == k;
    }
  }

  /** The matcher is complete: every prefix a valid tree matches has an end
      position marking it. */
  lemma {:induction false} Complete(t: Tree, w: string)
    requires IsValidTree(t)
    ensures CompleteFor(t, w)
    decreases t
  {
    match t
    case Leaf(sym) =>
      forall k | 0 <= k <= |w| && InLang(t, w[..k]) ensures exists j :: j in MatchIndices(t, w) && Clamp(j, |w|) == k {
        if sym == [MatchEmpty] {
          assert |w[..k]| == 0;
          if |w| == 0 {
            assert 1 in MatchIndices(t, w);
          } else {
            assert 0 in MatchIndices(t, w);
          }
        } else {
          assert w[..k] == sym && |sym| == 1;
          assert sym == [w[0]];
          assert 1 in MatchIndices(t, w);
        }
      }
    case Bar(l, r) =>
      Complete(l, w);
      Complete(r, w);
    case Dot(l, r) =>
      Complete(l, w);
      forall li | li in MatchIndices(l, w) ensures CompleteFor(r, Drop(w, li)) {
        Complete(r, Drop(w, li));
      }
      forall k | 0 <= k <= |w| && InLang(t, w[..k]) ensures exists j :: j in MatchIndices(t, w) && Clamp(j, |w|) == k {
        DotPieceComplete(l, r, w, k);
      }
    case Star(c) =>
      if |w| == 0 {
        assert 1 in MatchIndices(t, w);
      } else {
        match c
        case Star(cc) =>
          Complete(c, w);
          assert MatchIndices(c, w) == ApplyStar(cc, w);
          assert MatchIndices(t, w) == ApplyStar(c, w) == ApplyStar(cc, w);
          forall k | 0 <= k <= |w| && InLang(t, w[..k]) ensures exists j :: j in MatchIndices(t, w) && Clamp(j, |w|) == k {
            StarOfStar(cc, w[..k]);
          }
        case _ =>
          forall st | 0 <= st < |w| ensures CompleteFor(c, w[st..]) {
            Complete(c, w[st..]);
          }
          StarLoopClosed(c, w, [0], 0);
          var r := StarLoop(c, w, [0], 0);
          assert MatchIndices(t, w) == ApplyStar(c, w) == r;
          assert 0 in r by { assert 0 in [0]; }
          forall k | 0 <= k <= |w| && InLang(t, w[..k]) ensures exists j :: j in MatchIndices(t, w) && Clamp(j, |w|) == k {
            assert w[0..k] == w[..k];
            StarReach(c, w, r, 0, k);
          }
      }
  }

  /** The dot case of completeness, for one prefix length `k`. */
  lemma DotPieceComplete(l: Tree, r: Tree, w: string, k: nat)
    requires CompleteFor(l, w)
    requires forall li :: li in MatchIndices(l, w) ==> CompleteFor(r, Drop(w, li))
    requires 0 <= k <= |w| && InLang(Dot(l, r), w[..k])
    ensures exists j :: j in MatchIndices(Dot(l, r), w) && Clamp(j, |w|) == k
  {
    var m :| 0 <= m <= k && DotSplit(l, r, w[..k], m);
    assert InLang(l, w[..m]) by {
      assert w[..k][..m] == w[..m];
    }
    var li := PickEnd(l, w, m);
    assert CompleteFor(r, Drop(w, li));
    DotRightPiece(l, r, w, k, m, li);
  }

  /** A complete matcher has an end position for each matched prefix. */
  lemma PickEnd(t: Tree, w: string, k: nat) returns (j: nat)
    requires CompleteFor(t, w) && k <= |w| && InLang(t, w[..k])
    ensures j in MatchIndices(t, w) && Clamp(j, |w|) == k
  {
    j :| j in MatchIndices(t, w) && Clamp(j, |w|) == k;
  }

  /** Given the left end position `li` of a dot split at `m`, the right side
      reaches the end `k`. */
  lemma DotRightPiece(l: Tree, r: Tree, w: string, k: nat, m: nat, li: nat)
    requires m <= k <= |w| && InLang(r, w[..k][m..])
    requires li in MatchIndices(l, w) && Clamp(li, |w|) == m
    requires CompleteFor(r, Drop(w, li))
    ensures exists j :: j in MatchIndices(Dot(l, r), w) && Clamp(j, |w|) == k
  {
    var rest := Drop(w, li);
    var km := if li <= |w| then k - m else 0;
    assert km <= |rest| && InLang(r, rest[..km]) by {
      assert rest[..km] == w[..k][m..];
    }
    var ri := PickEnd(r, rest, km);
    DotMember(l, r, w, li, ri);
    assert Clamp(li + ri, |w|) == k;
  }

  /** A left end position followed by a right one from there is an end
      position of the dot. */
  lemma DotMember(l: Tree, r: Tree, w: string, li: nat, ri: nat)
    requires li in MatchIndices(l, w) && ri in MatchIndices(r, Drop(w, li))
    ensures li + ri in MatchIndices(Dot(l, r), w)
  {
    assert li + ri in ApplyDot(l, r, w);
  }

  /** Some end position reaches the end of the string exactly when the
      whole string is in the tree's language. */
  lemma MatchMeaning(t: Tree, s: string)
    requires IsValidTree(t)
    ensures Reaches(MatchIndices(t, s), |s|) <==> InLang(t, s)
  {
    var m := MatchIndices(t, s);
    assert s[..|s|] == s;
    if exists j :: j in m && j >= |s| {
      var j :| j in m && j >= |s|;
      assert InLang(t, s[..Clamp(j, |s|)]) by {
        Sound(t, s);
      }
      assert Clamp(j, |s|) == |s|;
    }
    if InLang(t, s) {
      assert exists j :: j in m && Clamp(j, |s|) == |s| by {
        Complete(t, s);
        assert InLang(t, s[..|s|]);
      }
      var j :| j in m && Clamp(j, |s|) == |s|;
      assert j >= |s|;
      assert |m| > 0;
    }
  }

  /** A star over a one-character leaf matches exactly the strings made of
      that character alone. */
  lemma {:induction false} StarOfChar(ch: char, w: string)
    requires ch != MatchEmpty
    ensures InLang(Star(Leaf([ch])), w) <==> forall i :: 0 <= i < |w| ==> w[i] == ch
    decreases |w|
  {
    if w != [] {
      StarOfChar(ch, w[1..]);
      if InLang(Star(Leaf([ch])), w) {
        StarElim(Leaf([ch]), w);
        var k :| 0 < k <= |w| && StarSplit(Leaf([ch]), w, k);
        assert [ch] != [MatchEmpty] by {
          assert [ch][0] != [MatchEmpty][0];
        }
        assert InLang(Leaf([ch]), w[..k]);
        assert w[..k] == [ch];
        assert k == 1;
        forall i | 0 <= i < |w| ensures w[i] == ch {
          if i > 0 {
            assert w[i] == w[1..][i - 1];
          } else {
            assert w[0] == w[..1][0];
          }
        }
      }
      if forall i :: 0 <= i < |w| ==> w[i] == ch {
        assert forall i :: 0 <= i < |w[1..]| ==> w[1..][i] == w[i + 1];
        assert w[..1] == [ch];
        StarIntro(Leaf([ch]), w, 1);
      }
    }
  }

  /** Eight `1`s are some number of `1`s. */
  lemma OnesLanguage()
    ensures InLang(Star(Leaf("1")), "11111111")
  {
    StarOfChar('1', "11111111");
  }

  /** A string with a `0` among its `1`s is not. */
  lemma BrokenOnesLanguage()
    ensures !InLang(Star(Leaf("1")), "111110111")
  {
    StarOfChar('1', "111110111");
    assert "111110111"[5] == '0';
  }

  /** The `regex_match` examples of a star on a non-empty string. */
  lemma StarMatchExamples()
    ensures RegexMatch(Star(Leaf("1")), "11111111") == Success(true)
    ensures RegexMatch(Star(Leaf("1")), "111110111") == Success(false)
  {
    OnesLanguage();
    BrokenOnesLanguage();
  }

  /** The `regex_match` examples of a dot and a bar not covered directly. */
  lemma DotBarMatchExamples()
    ensures RegexMatch(Dot(Leaf("0"), Leaf("1")), "") == Success(false)
    ensures RegexMatch(Dot(Leaf("0"), Leaf("1")), "1") == Success(false)
    ensures RegexMatch(Bar(Leaf("0"), Leaf("1")), "0") == Success(true)
    ensures RegexMatch(Bar(Leaf("0"), Leaf("1")), "1") == Success(true)
  {
    assert ""[..0] == "";
    assert !DotSplit(Leaf("0"), Leaf("1"), "", 0);
    assert "1"[..0] == "" && "1"[..1] == "1" && "1"[1..] == "";
    assert !DotSplit(Leaf("0"), Leaf("1"), "1", 0) && !DotSplit(Leaf("0"), Leaf("1"), "1", 1);
  }

  /** `022` is a `0` or a `1` followed by `2`s. */
  lemma CompoundHolds()
    ensures InLang(Dot(Bar(Leaf("0"), Leaf("1")), Star(Leaf("2"))), "022")
  {
    StarOfChar('2', "22");
    assert "022"[..1] == "0" && "022"[1..] == "22";
    assert DotSplit(Bar(Leaf("0"), Leaf("1")), Star(Leaf("2")), "022", 1);
  }

  /** The compound tree of the `regex_match` examples, a `0` or a `1`
      followed by any number of `2`s, matches `022`. */
  lemma CompoundMatches()
    ensures RegexMatch(Dot(Bar(Leaf("0"), Leaf("1")), Star(Leaf("2"))), "022") == Success(true)
  {
    CompoundHolds();
  }

  /** No string `01` is a `0` or a `1` followed by `2`s. */
  lemma CompoundLanguage()
    ensures !InLang(Dot(Bar(Leaf("0"), Leaf("1")), Star(Leaf("2"))), "01")
  {
    var b := Bar(Leaf("0"), Leaf("1"));
    var twos := Star(Leaf("2"));
    StarOfChar('2', "1");
    assert "01"[..0] == "" && "01"[..1] == "0" && "01"[1..] == "1" && "01"[..2] == "01";
    assert !DotSplit(b, twos, "01", 0) && !DotSplit(b, twos, "01", 1) && !DotSplit(b, twos, "01", 2);
  }

  /** The compound tree of the `regex_match` examples does not match `01`. */
  lemma CompoundRejects()
    ensures RegexMatch(Dot(Bar(Leaf("0"), Leaf("1")), Star(Leaf("2"))), "01") == Success(false)
  {
    CompoundLanguage();
  }

  /** The documented examples of `_apply_basic_regex`. */
  lemma BasicExamples()
    ensures ApplyBasic("e", "") == {1} && ApplyBasic("e", " ") == {0}
    ensures ApplyBasic("1", "1") == {1} && ApplyBasic("2", "1") == {} && ApplyBasic("2", "") == {}
    ensures ApplyBasic("e", "2") == {0}
  {
  }

  /** The documented examples of `regex_match`. */
  lemma MatchExamples()
    ensures RegexMatch(Leaf("e"), "") == Success(true)
    ensures RegexMatch(Leaf("2"), "1") == Success(false)
    ensures RegexMatch(Star(Leaf("1")), "") == Success(true)
    ensures RegexMatch(Dot(Leaf("0"), Leaf("1")), "01") == Success(true)
    ensures RegexMatch(Dot(Leaf("0"), Leaf("1")), "0") == Success(false)
    ensures RegexMatch(Dot(Leaf("e"), Leaf("1")), "1") == Success(true)
    ensures RegexMatch(Bar(Leaf("0"), Leaf("1")), "") == Success(false)
    ensures RegexMatch(Bar(Leaf("0"), Leaf("e")), "") == Success(true)
    ensures RegexMatch(Leaf("-1"), "-1") == Failure(InvalidRegexTreeException(UnsupportedTree))
  {
    assert "01"[..1] == "0" && "01"[1..] == "1";
    assert DotSplit(Leaf("0"), Leaf("1"), "01", 1);
    assert "1"[..0] == "" && "1"[0..] == "1";
    assert DotSplit(Leaf("e"), Leaf("1"), "1", 0);
    assert "0"[..0] == "" && "0"[0..] == "0" && "0"[..1] == "0" && "0"[1..] == "";
    assert !DotSplit(Leaf("0"), Leaf("1"), "0", 0) && !DotSplit(Leaf("0"), Leaf("1"), "0", 1);
  }
}
