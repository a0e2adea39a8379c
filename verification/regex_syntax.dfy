/** The regular expressions of the regex functions: strings over the symbols
    `0 1 2 e * . | ( )`, the trees they stand for, and the conversions between
    the two. A valid regex is `0`, `1`, `2`, `e`, `R*`, `(R.R)` or `(R|R)` for
    valid regexes `R`. */
module RegexSyntax {
  import opened Outcomes

  const MatchEmpty := 'e'
  const MatchZero := '0'
  const MatchOne := '1'
  const MatchTwo := '2'
  const BinaryLeft := '('
  const BinaryRight := ')'
  const AndOp := '.'
  const OrOp := '|'
  const AllOp := '*'

  /** A regex tree. The classes `Leaf`, `StarTree`, `DotTree` and `BarTree`
      become constructors, so a node always has the number of children its
      kind calls for and only a leaf's symbol can be wrong. */
  datatype Tree =
    | Leaf(sym: string)
    | Star(child: Tree)
    | Dot(left: Tree, right: Tree)
    | Bar(left: Tree, right: Tree)

  /** The exceptions raised for a string that is not a regex and for a tree
      that is not a valid one, with their messages. */
  datatype RegexError =
    | InvalidRegexException(message: string)
    | InvalidRegexTreeException(message: string)

  const UnsupportedFormat := "Unsupported regex format."
  const UnsupportedTree := "Unsupported regex tree."

  /** Python's `s[k:]`: the suffix from `k`, empty once `k` passes the end. */
  function Drop(s: string, k: nat): (r: string)
    ensures |r| == if k <= |s| then |s| - k else 0
    ensures k <= |s| ==> r == s[k..]
  {
    if k <= |s| then s[k..] else []
  }

  // ---------------------------------------------------------------------------
  // Leaf symbols and the operator scan

  /** `_is_leaf_symbol`: exactly one character, and one of `e`, `1`, `2`, `0`. */
  predicate IsLeafSymbol(s: string) {
    |s| == 1 && (s[0] == MatchEmpty || s[0] == MatchOne || s[0] == MatchTwo || s[0] == MatchZero)
  }

  /** The leaf symbols are exactly the four one-character strings. */
  lemma LeafSymbols(s: string)
    ensures IsLeafSymbol(s) <==> s in {"0", "1", "2", "e"}
  {
    if |s| == 1 {
      assert s == [s[0]];
    }
  }

  predicate IsOperator(ch: char) {
    ch == AndOp || ch == OrOp
  }

  /** How much a character changes the bracket count. */
  function Delta(ch: char): int {
    if ch == BinaryLeft then 1 else if ch == BinaryRight then -1 else 0
  }

  /** The bracket count after reading `w`: opening minus closing brackets. */
  function Depth(w: string): int {
    if |w| == 0 then 0 else Depth(w[..|w| - 1]) + Delta(w[|w| - 1])
  }

  /** Position `i` holds a `.` or `|` with all brackets before it closed. */
  predicate TopOperatorAt(w: string, i: nat)
    requires i < |w|
  {
    IsOperator(w[i]) && Depth(w[..i]) == 0
  }

  /** The scan of `_find_operator` from `index`, with `open` the bracket count
      so far: it stops at the first top-level operator, or at the end. */
  function ScanOperator(w: string, index: nat, open: int): (k: nat)
    requires index <= |w| && open == Depth(w[..index])
    ensures index <= k <= |w|
    ensures forall i :: index <= i < k ==> !TopOperatorAt(w, i)
    ensures k < |w| ==> TopOperatorAt(w, k)
    decreases |w| - index
  {
    if index >= |w| then index
    else
      assert w[..index + 1][..index] == w[..index];
      if w[index] == BinaryLeft then ScanOperator(w, index + 1, open + 1)
      else if w[index] == BinaryRight then ScanOperator(w, index + 1, open - 1)
      else if IsOperator(w[index]) && open == 0 then index
      else ScanOperator(w, index + 1, open)
  }

  /** `_find_operator`: the position of the first `.` or `|` outside every
      bracket, or `|w|` when there is none. */
  function FindOperator(w: string): (k: nat)
    ensures k <= |w|
    ensures forall i :: 0 <= i < k ==> !TopOperatorAt(w, i)
    ensures k < |w| ==> TopOperatorAt(w, k)
  {
    ScanOperator(w, 0, 0)
  }

  /** The first top-level operator is where `FindOperator` stops. */
  lemma FirstTopOperator(w: string, m: nat)
    requires m < |w| && TopOperatorAt(w, m)
    requires forall i :: 0 <= i < m ==> !TopOperatorAt(w, i)
    ensures FindOperator(w) == m
  {
  }

  // ---------------------------------------------------------------------------
  // Recognising regexes

  /** `is_regex`, branch for branch: a leaf symbol; a trailing `*` on a regex;
      or, for more than four characters in brackets, a split of the inside at
      its first top-level operator into two regexes. The guard compares the
      operator position with the length of the whole string, as the source
      does, although the inside is two characters shorter. */
  predicate IsRegex(s: string)
    decreases |s|
  {
    if |s| == 0 then false
    else if IsLeafSymbol(s) then true
    else if s[|s| - 1] == AllOp then IsRegex(s[..|s| - 1])
    else if |s| > 4 && s[0] == BinaryLeft && s[|s| - 1] == BinaryRight then
      var inner := s[1..|s| - 1];
      var div := FindOperator(inner);
      if div < |s| then IsRegex(inner[..div]) && IsRegex(Drop(inner, div + 1))
      else false
    else false
  }

  /** A regex in brackets: more than four characters, `(` first, `)` last. */
  predicate Bracketed(s: string) {
    |s| > 4 && s[0] == BinaryLeft && s[|s| - 1] == BinaryRight
  }

  /** The length guard of the bracket case never fails, and when the inside
      has no top-level operator the right part is the empty string, which is
      not a regex; so the guard decides as the intended `div < |inner|` would. */
  lemma BracketGuard(s: string)
    requires Bracketed(s)
    ensures FindOperator(s[1..|s| - 1]) < |s|
    ensures IsRegex(s) <==>
      var inner := s[1..|s| - 1];
      var div := FindOperator(inner);
      div < |inner| && IsRegex(inner[..div]) && IsRegex(inner[div + 1..])
  {
    var inner := s[1..|s| - 1];
    var div := FindOperator(inner);
    if div == |inner| {
      assert Drop(inner, div + 1) == [];
    }
  }

  // ---------------------------------------------------------------------------
  // Trees and their rendering

  /** `is_valid_tree`: every leaf holds a leaf symbol. The class and
      child-count checks hold by construction of `Tree`. */
  predicate IsValidTree(t: Tree) {
    match t
    case Leaf(sym) => IsLeafSymbol(sym)
    case Star(c) => IsValidTree(c)
    case Dot(l, r) => IsValidTree(l) && IsValidTree(r)
    case Bar(l, r) => IsValidTree(l) && IsValidTree(r)
  }

  /** The symbols of the leaves, left to right. */
  function Leaves(t: Tree): seq<string> {
    match t
    case Leaf(sym) => [sym]
    case Star(c) => Leaves(c)
    case Dot(l, r) => Leaves(l) + Leaves(r)
    case Bar(l, r) => Leaves(l) + Leaves(r)
  }

  /** Every symbol of the sequence is a leaf symbol. */
  predicate AllLeafSymbols(syms: seq<string>) {
    forall i :: 0 <= i < |syms| ==> IsLeafSymbol(syms[i])
  }

  /** A tree is valid exactly when each of its leaves is. */
  lemma {:induction false} ValidIffLeaves(t: Tree)
    ensures IsValidTree(t) <==> AllLeafSymbols(Leaves(t))
  {
    match t
    case Leaf(sym) =>
      assert Leaves(t)[0] == sym;
    case Star(c) =>
      ValidIffLeaves(c);
    case Dot(l, r) =>
      ValidIffLeaves(l);
      ValidIffLeaves(r);
      JoinedLeaves(Leaves(l), Leaves(r));
    case Bar(l, r) =>
      ValidIffLeaves(l);
      ValidIffLeaves(r);
      JoinedLeaves(Leaves(l), Leaves(r));
  }

  lemma JoinedLeaves(a: seq<string>, b: seq<string>)
    ensures AllLeafSymbols(a + b) <==> AllLeafSymbols(a) && AllLeafSymbols(b)
  {
    if AllLeafSymbols(a + b) {
      forall i | 0 <= i < |a| ensures IsLeafSymbol(a[i]) {
        assert (a + b)[i] == a[i];
      }
      forall i | 0 <= i < |b| ensures IsLeafSymbol(b[i]) {
        assert (a + b)[|a| + i] == b[i];
      }
    }
    if AllLeafSymbols(a) && AllLeafSymbols(b) {
      forall i | 0 <= i < |a + b| ensures IsLeafSymbol((a + b)[i]) {
        if i < |a| {
          assert (a + b)[i] == a[i];
        } else {
          assert (a + b)[i] == b[i - |a|];
        }
      }
    }
  }

  /** The string a tree stands for, in the grammar of `is_regex`. */
  function Render(t: Tree): string {
    match t
    case Leaf(sym) => sym
    case Star(c) => Render(c) + [AllOp]
    case Dot(l, r) => [BinaryLeft] + Render(l) + [AndOp] + Render(r) + [BinaryRight]
    case Bar(l, r) => [BinaryLeft] + Render(l) + [OrOp] + Render(r) + [BinaryRight]
  }

  // ---------------------------------------------------------------------------
  // Building trees

  /** `_build_regex_tree`: a trailing `*` gives a star over the rest, an
      opening bracket a binary tree, anything else a leaf. The result is a
      valid tree that renders back to the string. */
  function BuildTree(s: string): (t: Tree)
    requires IsRegex(s)
    ensures IsValidTree(t) && Render(t) == s
    decreases |s|, 1
  {
    if s[|s| - 1] == AllOp then
      var t := Star(BuildTree(s[..|s| - 1]));
      assert s == s[..|s| - 1] + [AllOp];
      t
    else if s[0] == BinaryLeft then BuildBinary(s)
    else Leaf(s)
  }

  /** A regex that opens with a bracket and does not end in `*` is a split
      of its inside at the first top-level operator into two regexes. */
  lemma BracketParts(s: string)
    requires IsRegex(s) && s[|s| - 1] != AllOp && s[0] == BinaryLeft
    ensures Bracketed(s)
    ensures FindOperator(s[1..|s| - 1]) < |s| - 2
    ensures IsRegex(s[1..|s| - 1][..FindOperator(s[1..|s| - 1])])
    ensures IsRegex(s[1..|s| - 1][FindOperator(s[1..|s| - 1]) + 1..])
  {
    assert !IsLeafSymbol(s);
    var inner := s[1..|s| - 1];
    var div := FindOperator(inner);
    assert IsRegex(inner[..div]) && IsRegex(Drop(inner, div + 1));
  }

  /** A bracketed string is its inside's two parts around the operator. */
  lemma Reassemble(s: string, k: nat)
    requires |s| >= 2 && k < |s| - 2
    ensures s == [s[0]] + s[1..|s| - 1][..k] + [s[1..|s| - 1][k]] + s[1..|s| - 1][k + 1..] + [s[|s| - 1]]
  {
    var inner := s[1..|s| - 1];
    assert inner == inner[..k] + [inner[k]] + inner[k + 1..];
    assert s == [s[0]] + inner + [s[|s| - 1]];
  }

  /** `_build_binary_tree`: splits the inside of the brackets at its first
      top-level operator, a bar tree for `|` and a dot tree otherwise. */
  function BuildBinary(s: string): (t: Tree)
    requires IsRegex(s) && s[|s| - 1] != AllOp && s[0] == BinaryLeft
    ensures IsValidTree(t) && Render(t) == s
    decreases |s|, 0
  {
    BracketParts(s);
    var inner := s[1..|s| - 1];
    var opIndex := FindOperator(inner);
    var op := inner[opIndex];
    var leftTree := BuildTree(inner[..opIndex]);
    var rightTree := BuildTree(inner[opIndex + 1..]);
    Reassemble(s, opIndex);
    assert IsOperator(op);
    if op == OrOp then Bar(leftTree, rightTree) else Dot(leftTree, rightTree)
  }

  /** `build_regex_tree`: raises `InvalidRegexException` exactly when the
      string is not a regex, and otherwise returns the tree it stands for. */
  function BuildRegexTree(s: string): (r: Result<Tree, RegexError>)
    ensures r.Failure? <==> !IsRegex(s)
    ensures r.Failure? ==> r.error == InvalidRegexException(UnsupportedFormat)
    ensures r.Success? ==> IsValidTree(r.value) && Render(r.value) == s
  {
    if !IsRegex(s) then Failure(InvalidRegexException(UnsupportedFormat))
    else Success(BuildTree(s))
  }

  // ---------------------------------------------------------------------------
  // Rendering then parsing gives the tree back

  /** Brackets close up, and every `.` or `|` sits inside some bracket. */
  predicate Balanced(w: string) {
    Depth(w) == 0 && forall i :: 0 <= i < |w| && IsOperator(w[i]) ==> Depth(w[..i]) > 0
  }

  lemma {:induction false} DepthAppend(a: string, b: string)
    ensures Depth(a + b) == Depth(a) + Depth(b)
    decreases |b|
  {
    if |b| > 0 {
      assert (a + b)[..|a + b| - 1] == a + b[..|b| - 1];
      DepthAppend(a, b[..|b| - 1]);
    } else {
      assert a + b == a;
    }
  }

  /** Inside `(a op b)`, the bracket count before each `.` or `|` is positive. */
  lemma WrappedOperators(a: string, op: char, b: string, i: nat)
    requires Balanced(a) && Balanced(b) && IsOperator(op)
    requires i < |a| + |b| + 3
    requires IsOperator(([BinaryLeft] + a + [op] + b + [BinaryRight])[i])
    ensures Depth(([BinaryLeft] + a + [op] + b + [BinaryRight])[..i]) > 0
  {
    var w := [BinaryLeft] + a + [op] + b + [BinaryRight];
    assert w[0] == BinaryLeft && w[|w| - 1] == BinaryRight;
    assert Depth([BinaryLeft]) == 1;
    if i <= |a| + 1 {
      var k := i - 1;
      assert w[..i] == [BinaryLeft] + a[..k];
      DepthAppend([BinaryLeft], a[..k]);
      if k < |a| {
        assert w[i] == a[k];
      } else {
        assert a[..k] == a;
      }
    } else {
      var j := i - |a| - 2;
      assert w[i] == b[j];
      assert w[..i] == ([BinaryLeft] + a + [op]) + b[..j];
      DepthAppend([BinaryLeft] + a + [op], b[..j]);
      DepthAppend([BinaryLeft] + a, [op]);
      DepthAppend([BinaryLeft], a);
      assert Depth([op]) == 0;
    }
  }

  /** `(a op b)` is balanced when `a` and `b` are. */
  lemma WrapBalanced(a: string, op: char, b: string)
    requires Balanced(a) && Balanced(b) && IsOperator(op)
    ensures Balanced([BinaryLeft] + a + [op] + b + [BinaryRight])
  {
    var w := [BinaryLeft] + a + [op] + b + [BinaryRight];
    DepthAppend([BinaryLeft] + a + [op] + b, [BinaryRight]);
    DepthAppend([BinaryLeft] + a + [op], b);
    DepthAppend([BinaryLeft] + a, [op]);
    DepthAppend([BinaryLeft], a);
    assert Depth([BinaryLeft]) == 1 && Depth([BinaryRight]) == -1 && Depth([op]) == 0;
    forall i | 0 <= i < |w| && IsOperator(w[i]) ensures Depth(w[..i]) > 0 {
      WrappedOperators(a, op, b, i);
    }
  }

  /** A trailing `*` keeps a string balanced. */
  lemma StarBalanced(a: string)
    requires Balanced(a)
    ensures Balanced(a + [AllOp])
  {
    var w := a + [AllOp];
    DepthAppend(a, [AllOp]);
    assert Depth([AllOp]) == 0;
    forall i | 0 <= i < |w| && IsOperator(w[i]) ensures Depth(w[..i]) > 0 {
      assert w[..i] == a[..i];
    }
  }

  /** The rendering of a valid tree is non-empty and balanced. */
  lemma {:induction false} RenderBalanced(t: Tree)
    requires IsValidTree(t)
    ensures |Render(t)| > 0 && Balanced(Render(t))
  {
    match t
    case Leaf(sym) =>
      assert sym[..0] == [];
      assert sym == sym[..0] + [sym[0]];
    case Star(c) =>
      RenderBalanced(c);
      StarBalanced(Render(c));
    case Dot(l, r) =>
      RenderBalanced(l);
      RenderBalanced(r);
      WrapBalanced(Render(l), AndOp, Render(r));
    case Bar(l, r) =>
      RenderBalanced(l);
      RenderBalanced(r);
      WrapBalanced(Render(l), OrOp, Render(r));
  }

  /** In `a op b` with `a` balanced, the first top-level operator is `op`. */
  lemma SplitsAtJoin(a: string, op: char, b: string)
    requires Balanced(a) && IsOperator(op)
    ensures FindOperator(a + [op] + b) == |a|
  {
    var w := a + [op] + b;
    assert w[..|a|] == a;
    forall i | 0 <= i < |a| ensures !TopOperatorAt(w, i) {
      assert w[i] == a[i] && w[..i] == a[..i];
    }
    FirstTopOperator(w, |a|);
  }

  /** `(a op b)` is a regex when `a` and `b` are and `op` is the first
      top-level operator of `a op b`. */
  lemma {:induction false} RenderBinaryParses(a: string, op: char, b: string)
    requires IsRegex(a) && IsRegex(b) && FindOperator(a + [op] + b) == |a|
    ensures IsRegex([BinaryLeft] + a + [op] + b + [BinaryRight])
  {
    var s := [BinaryLeft] + a + [op] + b + [BinaryRight];
    var inner := s[1..|s| - 1];
    assert Bracketed(s) && inner == a + [op] + b;
    assert inner[..|a|] == a;
    assert inner[|a| + 1..] == b;
    BracketedRegex(s, |a|);
  }

  /** A bracketed string whose inside splits at its first top-level
      operator into two regexes is a regex. */
  lemma BracketedRegex(s: string, div: nat)
    requires Bracketed(s) && div == FindOperator(s[1..|s| - 1])
    requires div < |s| - 2
    requires IsRegex(s[1..|s| - 1][..div]) && IsRegex(s[1..|s| - 1][div + 1..])
    ensures IsRegex(s)
  {
    var inner := s[1..|s| - 1];
    assert Drop(inner, div + 1) == inner[div + 1..];
    assert !IsLeafSymbol(s) && s[|s| - 1] != AllOp;
  }

  /** A valid tree renders to a regex, and building a tree from it gives the
      same tree back. */
  lemma {:induction false} RenderParses(t: Tree)
    requires IsValidTree(t)
    ensures IsRegex(Render(t)) && BuildTree(Render(t)) == t
  {
    RenderBalanced(t);
    match t
    case Leaf(sym) =>
    case Star(c) =>
      RenderParses(c);
      var s := Render(t);
      assert s[..|s| - 1] == Render(c);
    case Dot(l, r) =>
      RenderParses(l);
      RenderParses(r);
      RenderBalanced(l);
      BuildJoined(Render(l), AndOp, Render(r));
    case Bar(l, r) =>
      RenderParses(l);
      RenderParses(r);
      RenderBalanced(l);
      BuildJoined(Render(l), OrOp, Render(r));
  }

  /** What the builder returns for a bracketed regex split at `k`. */
  lemma BuildBinaryAt(s: string, k: nat)
    requires IsRegex(s) && |s| > 0 && s[0] == BinaryLeft && s[|s| - 1] == BinaryRight
    requires |s| >= 2 && k == FindOperator(s[1..|s| - 1])
    ensures k < |s| - 2
    ensures BuildTree(s) ==
      var inner := s[1..|s| - 1];
      var left := BuildTree(inner[..k]);
      var right := BuildTree(inner[k + 1..]);
      if inner[k] == OrOp then Bar(left, right) else Dot(left, right)
  {
    BracketParts(s);
  }

  /** `(a op b)`, for a balanced `a`, is a regex, and building it builds `a`
      and `b`. */
  lemma BuildJoined(a: string, op: char, b: string)
    requires IsOperator(op) && Balanced(a) && IsRegex(a) && IsRegex(b)
    ensures IsRegex([BinaryLeft] + a + [op] + b + [BinaryRight])
    ensures BuildTree([BinaryLeft] + a + [op] + b + [BinaryRight]) ==
      if op == OrOp then Bar(BuildTree(a), BuildTree(b)) else Dot(BuildTree(a), BuildTree(b))
  {
    var s := [BinaryLeft] + a + [op] + b + [BinaryRight];
    assert FindOperator(a + [op] + b) == |a| by {
      SplitsAtJoin(a, op, b);
    }
    assert IsRegex(s) by {
      RenderBinaryParses(a, op, b);
    }
    var inner := s[1..|s| - 1];
    assert FindOperator(inner) == |a| && inner[..|a|] == a && inner[|a| + 1..] == b && inner[|a|] == op by {
      assert inner == a + [op] + b;
    }
    BuildBinaryAt(s, |a|);
  }

  /** The documented examples of `_find_operator` and `_is_leaf_symbol`. */
  lemma ScanExamples()
    ensures FindOperator("(0.1).1") == 5 && FindOperator("010101") == 6 && FindOperator("") == 0
    ensures IsLeafSymbol("e") && !IsLeafSymbol("3") && !IsLeafSymbol("e1")
  {
    var w := "(0.1).1";
    assert Depth(w[..5]) == 0 by {
      assert w[..5] == "(0.1)";
      assert "(0.1)"[..4] == "(0.1" && "(0.1"[..3] == "(0." && "(0."[..2] == "(0" && "(0"[..1] == "(" && "("[..0] == "";
    }
    FirstTopOperator(w, 5) by {
      forall i | 0 <= i < 5 ensures !TopOperatorAt(w, i) {
        if i == 2 {
          assert w[..2] == "(0" && "(0"[..1] == "(" && "("[..0] == "";
        }
      }
    }
  }

  /** Building the rendering of a valid tree succeeds with that tree. */
  lemma BuildsBack(t: Tree)
    requires IsValidTree(t)
    ensures BuildRegexTree(Render(t)) == Success(t)
  {
    RenderParses(t);
  }

  /** `is_regex` accepts exactly the renderings of valid trees, that is the
      grammar `0 | 1 | 2 | e | R* | (R.R) | (R|R)`. */
  lemma RegexIffGrammar(s: string)
    ensures IsRegex(s) <==> exists t :: IsValidTree(t) && Render(t) == s
  {
    if IsRegex(s) {
      var t := BuildTree(s);
      assert IsValidTree(t) && Render(t) == s;
    }
    if exists t :: IsValidTree(t) && Render(t) == s {
      var t :| IsValidTree(t) && Render(t) == s;
      RenderParses(t);
    }
  }

  /** The examples of the `is_regex` documentation. */
  lemma RegexExamples()
    ensures IsRegex("e") && IsRegex("(1.2)") && IsRegex("(e|0)") && IsRegex("1*")
    ensures !IsRegex(")1*)") && !IsRegex("-1") && !IsRegex("(1.)") && !IsRegex("*") && !IsRegex("")
  {
    assert "(1.2)"[1..4] == "1.2" && "1.2"[..1] == "1" && Drop("1.2", 2) == "2";
    assert "1.2"[..1] == "1";
    assert FindOperator("1.2") == 1 by {
      FirstTopOperator("1.2", 1);
    }
    assert "(e|0)"[1..4] == "e|0" && "e|0"[..1] == "e" && Drop("e|0", 2) == "0";
    assert "e|0"[..1] == "e";
    assert FindOperator("e|0") == 1 by {
      FirstTopOperator("e|0", 1);
    }
    assert ")1*"[..2] == ")1";
    assert "1*"[..1] == "1";
  }

  // ---------------------------------------------------------------------------
  // Permutations

  /** The string without its character at `cut`. */
  function Without(s: string, cut: nat): (r: string)
    requires cut < |s|
    ensures |r| + 1 == |s|
  {
    s[..cut] + s[cut + 1..]
  }

  /** `_permute_str`: a one-character string is its only permutation;
      otherwise each character in turn is put in front of every permutation
      of the others. The empty string has none. */
  function PermuteStr(s: string): (r: set<string>)
    decreases |s|
  {
    if |s| == 1 then {s}
    else set cut, perm | 0 <= cut < |s| && perm in PermuteStr(Without(s, cut)) :: [s[cut]] + perm
  }

  lemma WithoutMultiset(s: string, cut: nat)
    requires cut < |s|
    ensures multiset(Without(s, cut)) + multiset{s[cut]} == multiset(s)
  {
    assert s == s[..cut] + [s[cut]] + s[cut + 1..];
  }

  /** Whatever `_permute_str` yields is a rearrangement of its input. */
  lemma {:induction false} PermuteStrSound(s: string, p: string)
    requires p in PermuteStr(s)
    ensures |s| > 0 && multiset(p) == multiset(s)
    decreases |s|
  {
    if |s| != 1 {
      var cut, perm :| 0 <= cut < |s| && perm in PermuteStr(Without(s, cut)) && p == [s[cut]] + perm;
      PermuteStrSound(Without(s, cut), perm);
      WithoutMultiset(s, cut);
    }
  }

  /** Every rearrangement of a non-empty string is among its permutations. */
  lemma {:induction false} PermuteStrComplete(s: string, p: string)
    requires |s| > 0 && multiset(p) == multiset(s)
    ensures p in PermuteStr(s)
    decreases |s|
  {
    assert |p| == |multiset(p)| == |s|;
    assert p[0] in multiset(s);
    if |s| == 1 {
      assert p == [p[0]] && s == [s[0]];
    } else {
      var cut :| 0 <= cut < |s| && s[cut] == p[0];
      WithoutMultiset(s, cut);
      assert p == [p[0]] + p[1..];
      assert multiset(p) == multiset{p[0]} + multiset(p[1..]);
      assert multiset(p[1..]) == multiset(p) - multiset{p[0]};
      assert multiset(Without(s, cut)) == multiset(s) - multiset{s[cut]};
      PermuteStrComplete(Without(s, cut), p[1..]);
    }
  }

  /** `_permute_str` yields exactly the rearrangements of a non-empty string. */
  lemma PermuteStrExact(s: string, p: string)
    ensures p in PermuteStr(s) <==> |s| > 0 && multiset(p) == multiset(s)
  {
    if p in PermuteStr(s) {
      PermuteStrSound(s, p);
    }
    if |s| > 0 && multiset(p) == multiset(s) {
      PermuteStrComplete(s, p);
    }
  }

  /** `all_regex_permutations`: the permutations that are regexes. */
  function AllRegexPermutations(s: string): (r: set<string>)
  {
    set perm | perm in PermuteStr(s) && IsRegex(perm)
  }

  /** The regex permutations of `s` are exactly the regexes with the same
      characters as `s`. */
  lemma AllRegexPermutationsExact(s: string, p: string)
    ensures p in AllRegexPermutations(s) <==> IsRegex(p) && multiset(p) == multiset(s)
  {
    PermuteStrExact(s, p);
    if IsRegex(p) && multiset(p) == multiset(s) {
      assert |p| > 0;
      assert |s| == |multiset(s)| == |p|;
    }
  }

  /** The documented examples of `all_regex_permutations` and `_permute_str`. */
  lemma PermutationExamples()
    ensures AllRegexPermutations("1") == {"1"}
    ensures AllRegexPermutations("") == {} && PermuteStr("") == {}
  {
    forall p | p in AllRegexPermutations("1") ensures p == "1" {
      AllRegexPermutationsExact("1", p);
      assert |p| == |multiset(p)| == 1;
      assert p[0] in multiset(p);
      assert p == [p[0]];
    }
    assert "1" in AllRegexPermutations("1") by {
      AllRegexPermutationsExact("1", "1");
    }
    forall p | p in PermuteStr("") ensures false {
      PermuteStrSound("", p);
    }
  }

  /** The nested example of the `is_regex` documentation. */
  lemma NestedRegexExample()
    ensures IsRegex("((1.(0|2)*).1)")
  {
    var t := Dot(Dot(Leaf("1"), Star(Bar(Leaf("0"), Leaf("2")))), Leaf("1"));
    assert Render(t) == "((1.(0|2)*).1)";
    RenderParses(t);
  }

  /** A string holding three distinct characters once each is one of their
      six orders. */
  lemma ThreeOrders(p: string, a: char, b: char, c: char)
    requires a != b && b != c && a != c
    requires multiset(p) == multiset{a, b, c}
    ensures p in {[a, b, c], [a, c, b], [b, a, c], [b, c, a], [c, a, b], [c, b, a]}
  {
    assert |p| == |multiset(p)| == 3;
    assert p == [p[0], p[1], p[2]];
    assert multiset(p) == multiset{p[0], p[1], p[2]};
    assert p[0] in multiset(p) && p[1] in multiset(p) && p[2] in multiset(p);
  }

  /** The string of the `_permute_str` example and its six orders. */
  const BracketedStar := "(*)"
  const BracketedStarOrders := {"(*)", "()*", "*()", "*)(", ")(*", ")*("}

  /** Every permutation of `(*)` is one of its six orders. */
  lemma BracketedStarPermutation(p: string)
    requires p in PermuteStr(BracketedStar)
    ensures p in BracketedStarOrders
  {
    assert multiset(BracketedStar) == multiset{'(', '*', ')'} by {
      assert BracketedStar == ['(', '*', ')'];
    }
    PermuteStrExact(BracketedStar, p);
    ThreeOrders(p, '(', '*', ')');
  }

  /** Each order of three characters holds each of them once. */
  lemma OrdersOfThree(p: string, a: char, b: char, c: char)
    requires p in {[a, b, c], [a, c, b], [b, a, c], [b, c, a], [c, a, b], [c, b, a]}
    ensures multiset(p) == multiset{a, b, c}
  {
  }

  /** Each of the six orders of `(*)` is one of its permutations. */
  lemma BracketedStarOrder(p: string)
    requires p in BracketedStarOrders
    ensures p in PermuteStr(BracketedStar)
  {
    OrdersOfThree(BracketedStar, '(', '*', ')');
    OrdersOfThree(p, '(', '*', ')');
    PermuteStrExact(BracketedStar, p);
  }

  /** The six-element example of the `_permute_str` documentation. */
  lemma ThreeCharPermutations()
    ensures PermuteStr(BracketedStar) == BracketedStarOrders
  {
    forall p | p in PermuteStr(BracketedStar) ensures p in BracketedStarOrders {
      BracketedStarPermutation(p);
    }
    forall p | p in BracketedStarOrders ensures p in PermuteStr(BracketedStar) {
      BracketedStarOrder(p);
    }
  }

  /** A valid tree renders to at least one character; to exactly one only as
      a leaf, and to exactly two only as a star over a leaf. */
  lemma {:induction false} ShortRenderings(t: Tree)
    requires IsValidTree(t)
    ensures |Render(t)| >= 1
    ensures |Render(t)| == 1 ==> t.Leaf?
    ensures |Render(t)| == 2 ==> t.Star? && t.child.Leaf?
  {
    match t
    case Leaf(sym) =>
    case Star(c) =>
      ShortRenderings(c);
    case Dot(l, r) =>
      ShortRenderings(l);
      ShortRenderings(r);
    case Bar(l, r) =>
      ShortRenderings(l);
      ShortRenderings(r);
  }

  /** Two valid leaves whose symbols together hold the distinct characters
      `a` and `b` are the leaves `a` and `b`, in one order or the other. */
  lemma TwoLeaves(x: Tree, y: Tree, a: char, b: char)
    requires IsValidTree(x) && IsValidTree(y) && x.Leaf? && y.Leaf?
    requires a != b
    requires multiset(Render(x)) + multiset(Render(y)) == multiset{a, b}
    ensures (x == Leaf([a]) && y == Leaf([b])) || (x == Leaf([b]) && y == Leaf([a]))
  {
    assert x.sym == [x.sym[0]] && y.sym == [y.sym[0]];
    assert multiset{x.sym[0], y.sym[0]} == multiset{a, b};
    assert x.sym[0] in multiset{a, b} && y.sym[0] in multiset{a, b};
  }

  /** The characters of the `all_regex_permutations` example. */
  const PermutationSample := ")0|2*("

  /** The six regexes of the `all_regex_permutations` example. */
  const SampleRegexes := {"(0|2)*", "(0|2*)", "(0*|2)", "(2|0)*", "(2|0*)", "(2*|0)"}

  lemma SampleCharacters()
    ensures multiset(PermutationSample) == multiset{')', '0', '|', '2', '*', '('}
  {
    assert PermutationSample == [')', '0', '|', '2', '*', '('];
  }

  /** Taking the star off a rendering takes one `*` out of its characters. */
  lemma StarredCharacters(c: Tree)
    requires multiset(Render(Star(c))) == multiset{')', '0', '|', '2', '*', '('}
    ensures multiset(Render(c)) == multiset{')', '0', '|', '2', '('}
  {
    assert multiset(Render(Star(c))) == multiset(Render(c)) + multiset{AllOp};
  }

  /** A valid tree rendering to the sample's characters without the `*` is a
      bar. */
  lemma UnstarredIsBar(c: Tree)
    requires IsValidTree(c)
    requires multiset(Render(c)) == multiset{')', '0', '|', '2', '('}
    ensures c.Bar?
  {
    match c
    case Leaf(_) =>
      assert false;
    case Star(cc) =>
      assert false;
    case Dot(_, _) =>
      assert false;
    case Bar(_, _) =>
  }

  /** The characters of `l a o b r` are those of `a` and `b` plus the three
      single characters. */
  lemma FramedCharacters(l: char, a: string, o: char, b: string, r: char)
    ensures multiset([l] + a + [o] + b + [r]) == multiset{r, o, l} + (multiset(a) + multiset(b))
  {
    assert multiset([l] + a + [o] + b + [r]) == multiset([l] + a + [o] + b) + multiset{r};
    assert multiset([l] + a + [o] + b) == multiset([l] + a + [o]) + multiset(b);
    assert multiset([l] + a + [o]) == multiset([l] + a) + multiset{o};
    assert multiset([l] + a) == multiset{l} + multiset(a);
  }

  /** A common part cancels from two multiset sums. */
  lemma CancelFrame(frame: multiset<char>, p: multiset<char>, q: multiset<char>)
    requires frame + p == frame + q
    ensures p == q
  {
    forall ch ensures p[ch] == q[ch] {
      assert (frame + p)[ch] == (frame + q)[ch];
    }
  }

  /** Taking the brackets and the `|` off a bar's rendering leaves the
      characters of its two sides. */
  lemma BarCharacters(x: Tree, y: Tree, rest: multiset<char>)
    requires multiset(Render(Bar(x, y))) == multiset{')', '|', '('} + rest
    ensures multiset(Render(x)) + multiset(Render(y)) == rest
  {
    FramedCharacters(BinaryLeft, Render(x), OrOp, Render(y), BinaryRight);
    CancelFrame(multiset{')', '|', '('}, rest, multiset(Render(x)) + multiset(Render(y)));
  }

  /** The sample's characters are the brackets and the `|` of a bar plus a
      `0`, a `2` and a `*`. */
  lemma SampleSplit()
    ensures multiset{')', '0', '|', '2', '*', '('} == multiset{')', '|', '('} + multiset{'0', '2', '*'}
  {
  }

  /** Without the `*`, they are the brackets and the `|` plus a `0` and a
      `2`. */
  lemma UnstarredSampleSplit()
    ensures multiset{')', '0', '|', '2', '('} == multiset{')', '|', '('} + multiset{'0', '2'}
  {
  }

  /** A bar of two valid trees holding just a `0` and a `2` is a bar of the
      two leaves. */
  lemma LeafBar(x: Tree, y: Tree)
    requires IsValidTree(x) && IsValidTree(y)
    requires multiset(Render(x)) + multiset(Render(y)) == multiset{'0', '2'}
    ensures (x == Leaf("0") && y == Leaf("2")) || (x == Leaf("2") && y == Leaf("0"))
  {
    ShortRenderings(x);
    ShortRenderings(y);
    assert |Render(x)| + |Render(y)| == |multiset{'0', '2'}|;
    TwoLeaves(x, y, '0', '2');
  }

  /** A star whose rendering holds the sample's characters is a star over a
      bar of the leaves `0` and `2`. */
  lemma StarredSample(c: Tree)
    requires IsValidTree(c)
    requires multiset(Render(Star(c))) == multiset{')', '0', '|', '2', '*', '('}
    ensures c == Bar(Leaf("0"), Leaf("2")) || c == Bar(Leaf("2"), Leaf("0"))
  {
    StarredCharacters(c);
    UnstarredIsBar(c);
    UnstarredSampleSplit();
    BarCharacters(c.left, c.right, multiset{'0', '2'});
    LeafBar(c.left, c.right);
  }

  /** Two valid trees holding a `0`, a `2` and a `*` between them are a leaf
      and a star over the other leaf, in some order. */
  lemma StarLeafPair(x: Tree, y: Tree)
    requires IsValidTree(x) && IsValidTree(y)
    requires multiset(Render(x)) + multiset(Render(y)) == multiset{'0', '2', '*'}
    ensures || (x == Leaf("0") && y == Star(Leaf("2")))
            || (x == Leaf("2") && y == Star(Leaf("0")))
            || (x == Star(Leaf("0")) && y == Leaf("2"))
            || (x == Star(Leaf("2")) && y == Leaf("0"))
  {
    ShortRenderings(x);
    ShortRenderings(y);
    assert |Render(x)| + |Render(y)| == |multiset{'0', '2', '*'}|;
    if |Render(x)| == 1 {
      assert multiset(Render(y)) == multiset(Render(y.child)) + multiset{AllOp};
      TwoLeaves(x, y.child, '0', '2');
    } else {
      assert multiset(Render(x)) == multiset(Render(x.child)) + multiset{AllOp};
      TwoLeaves(x.child, y, '0', '2');
    }
  }

  /** A bar whose rendering holds the sample's characters has a leaf `0` or
      `2` on one side and a star over the other leaf on the other. */
  lemma BarredSample(x: Tree, y: Tree)
    requires IsValidTree(x) && IsValidTree(y)
    requires multiset(Render(Bar(x, y))) == multiset{')', '0', '|', '2', '*', '('}
    ensures || (x == Leaf("0") && y == Star(Leaf("2")))
            || (x == Leaf("2") && y == Star(Leaf("0")))
            || (x == Star(Leaf("0")) && y == Leaf("2"))
            || (x == Star(Leaf("2")) && y == Leaf("0"))
  {
    SampleSplit();
    BarCharacters(x, y, multiset{'0', '2', '*'});
    StarLeafPair(x, y);
  }

  /** The six trees of the example, with their renderings. */
  lemma SampleRenderings()
    ensures Render(Star(Bar(Leaf("0"), Leaf("2")))) == "(0|2)*"
    ensures Render(Star(Bar(Leaf("2"), Leaf("0")))) == "(2|0)*"
    ensures Render(Bar(Leaf("0"), Star(Leaf("2")))) == "(0|2*)"
    ensures Render(Bar(Leaf("2"), Star(Leaf("0")))) == "(2|0*)"
    ensures Render(Bar(Star(Leaf("0")), Leaf("2"))) == "(0*|2)"
    ensures Render(Bar(Star(Leaf("2")), Leaf("0"))) == "(2*|0)"
  {
  }

  /** A valid star holding the sample's characters renders to one of the
      six regexes of the example. */
  lemma StarredSampleRegex(c: Tree)
    requires IsValidTree(c)
    requires multiset(Render(Star(c))) == multiset{')', '0', '|', '2', '*', '('}
    ensures Render(Star(c)) in SampleRegexes
  {
    SampleRenderings();
    StarredSample(c);
  }

  /** So does a bar of valid trees. */
  lemma BarredSampleRegex(x: Tree, y: Tree)
    requires IsValidTree(x) && IsValidTree(y)
    requires multiset(Render(Bar(x, y))) == multiset{')', '0', '|', '2', '*', '('}
    ensures Render(Bar(x, y)) in SampleRegexes
  {
    SampleRenderings();
    BarredSample(x, y);
  }

  /** Every valid tree whose rendering holds the sample's characters renders
      to one of the six regexes of the example. */
  lemma SampleTrees(t: Tree)
    requires IsValidTree(t)
    requires multiset(Render(t)) == multiset{')', '0', '|', '2', '*', '('}
    ensures Render(t) in SampleRegexes
  {
    match t
    case Leaf(_) =>
      assert false;
    case Star(c) =>
      StarredSampleRegex(c);
    case Dot(_, _) =>
      assert false;
    case Bar(x, y) =>
      BarredSampleRegex(x, y);
  }

  /** Each of the six regexes of the example is a regex. */
  lemma SampleRegexesParse()
    ensures IsRegex("(0|2)*")
    ensures IsRegex("(0|2*)")
    ensures IsRegex("(0*|2)")
    ensures IsRegex("(2|0)*")
    ensures IsRegex("(2|0*)")
    ensures IsRegex("(2*|0)")
  {
    SampleRenderings();
    RenderParses(Star(Bar(Leaf("0"), Leaf("2"))));
    RenderParses(Star(Bar(Leaf("2"), Leaf("0"))));
    RenderParses(Bar(Leaf("0"), Star(Leaf("2"))));
    RenderParses(Bar(Leaf("2"), Star(Leaf("0"))));
    RenderParses(Bar(Star(Leaf("0")), Leaf("2")));
    RenderParses(Bar(Star(Leaf("2")), Leaf("0")));
  }

  /** `s` with the characters at `i` and `j` exchanged. */
  function Swapped(s: string, i: nat, j: nat): (t: string)
    requires i < |s| && j < |s|
    ensures |t| == |s|
  {
    s[i := s[j]][j := s[i]]
  }

  /** Exchanging two characters keeps the characters. */
  lemma SwapKeepsCharacters(s: string, i: nat, j: nat)
    requires i < |s| && j < |s|
    ensures multiset(Swapped(s, i, j)) == multiset(s)
  {
  }

  /** The chains of swaps `SampleSwaps` follows keep the characters of any
      six-character string. */
  lemma SwapChains(s: string)
    requires |s| == 6
    ensures var t := Swapped(s, 0, 5);
      multiset(Swapped(t, 4, 5)) == multiset(s)
      && multiset(Swapped(Swapped(t, 1, 3), 4, 5)) == multiset(s)
      && multiset(Swapped(Swapped(Swapped(t, 2, 4), 3, 4), 1, 4)) == multiset(s)
    ensures var t := Swapped(s, 0, 5);
      multiset(t) == multiset(s)
      && multiset(Swapped(t, 1, 3)) == multiset(s)
      && multiset(Swapped(Swapped(t, 2, 4), 3, 4)) == multiset(s)
  {
    var t := Swapped(s, 0, 5);
    SwapKeepsCharacters(s, 0, 5);
    SwapKeepsCharacters(t, 4, 5);
    SwapKeepsCharacters(t, 1, 3);
    SwapKeepsCharacters(Swapped(t, 1, 3), 4, 5);
    SwapKeepsCharacters(t, 2, 4);
    SwapKeepsCharacters(Swapped(t, 2, 4), 3, 4);
    SwapKeepsCharacters(Swapped(Swapped(t, 2, 4), 3, 4), 1, 4);
  }

  /** The swaps that lead from the sample to each regex of the example. */
  lemma SampleSwaps()
    ensures Swapped(PermutationSample, 0, 5) == "(0|2*)"
    ensures Swapped("(0|2*)", 4, 5) == "(0|2)*"
    ensures Swapped("(0|2*)", 1, 3) == "(2|0*)"
    ensures Swapped("(2|0*)", 4, 5) == "(2|0)*"
    ensures Swapped("(0|2*)", 2, 4) == "(0*2|)"
    ensures Swapped("(0*2|)", 3, 4) == "(0*|2)"
    ensures Swapped("(0*|2)", 1, 4) == "(2*|0)"
  {
  }

  /** Each of the six regexes of the example is made of the sample's
      characters. */
  lemma SampleRegexesCharacters()
    ensures multiset("(0|2)*") == multiset(PermutationSample)
    ensures multiset("(0|2*)") == multiset(PermutationSample)
    ensures multiset("(0*|2)") == multiset(PermutationSample)
    ensures multiset("(2|0)*") == multiset(PermutationSample)
    ensures multiset("(2|0*)") == multiset(PermutationSample)
    ensures multiset("(2*|0)") == multiset(PermutationSample)
  {
    SampleSwaps();
    SwapChains(PermutationSample);
  }

  /** Every regex of the example is a permutation of any string with the
      sample's characters. */
  lemma SampleRegexesIncluded(s: string)
    requires multiset(s) == multiset(PermutationSample)
    ensures "(0|2)*" in AllRegexPermutations(s)
    ensures "(0|2*)" in AllRegexPermutations(s)
    ensures "(0*|2)" in AllRegexPermutations(s)
    ensures "(2|0)*" in AllRegexPermutations(s)
    ensures "(2|0*)" in AllRegexPermutations(s)
    ensures "(2*|0)" in AllRegexPermutations(s)
  {
    SampleRegexesParse();
    SampleRegexesCharacters();
    AllRegexPermutationsExact(s, "(0|2)*");
    AllRegexPermutationsExact(s, "(0|2*)");
    AllRegexPermutationsExact(s, "(0*|2)");
    AllRegexPermutationsExact(s, "(2|0)*");
    AllRegexPermutationsExact(s, "(2|0*)");
    AllRegexPermutationsExact(s, "(2*|0)");
  }

  /** Every permutation of such a string that is a regex is one of the six. */
  lemma SamplePermutationsCovered(s: string)
    requires multiset(s) == multiset(PermutationSample)
    ensures AllRegexPermutations(s) <= SampleRegexes
  {
    SampleCharacters();
    forall p | p in AllRegexPermutations(s) ensures p in SampleRegexes {
      AllRegexPermutationsExact(s, p);
      RegexIffGrammar(p);
      var t :| IsValidTree(t) && Render(t) == p;
      SampleTrees(t);
    }
  }

  /** Six members of a set make up a subset of it. */
  lemma SixIncluded<T>(a: T, b: T, c: T, d: T, e: T, f: T, all: set<T>)
    requires a in all && b in all && c in all && d in all && e in all && f in all
    ensures {a, b, c, d, e, f} <= all
  {
  }

  /** Two sets each included in the other are equal. */
  lemma MutualSubsets<T>(a: set<T>, b: set<T>)
    requires a <= b && b <= a
    ensures a == b
  {
  }

  /** The regex permutations of any string with the sample's characters are
      exactly the six. */
  lemma SampleCharactersPermutations(s: string)
    requires multiset(s) == multiset(PermutationSample)
    ensures AllRegexPermutations(s) == SampleRegexes
  {
    SamplePermutationsCovered(s);
    SampleRegexesIncluded(s);
    SixIncluded("(0|2)*", "(0|2*)", "(0*|2)", "(2|0)*", "(2|0*)", "(2*|0)", AllRegexPermutations(s));
    MutualSubsets(AllRegexPermutations(s), SampleRegexes);
  }

  /** The six-element example of the `all_regex_permutations` documentation. */
  lemma SamplePermutations()
    ensures AllRegexPermutations(PermutationSample) == SampleRegexes
  {
    SampleCharactersPermutations(PermutationSample);
  }
}
