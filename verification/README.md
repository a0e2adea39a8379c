# Skip list, multiset and regular-expression tools: a Dafny model

The repository has three small libraries. The model covers each of them.

- **Skip list** (`2-skiplist/skiplist.py`): a sorted linked structure with a
  stack of levels. Every value sits on the bottom level. A random coin flip
  decides how far each inserted value is promoted upwards, and each flip
  succeeds with the list's probability `p`. The operations are search, insert,
  remove, count, length, equality, plain and unique iteration, and
  concatenation (`+` and `+=`).
- **Multiset** (`1-multiset/multiset.py`): a bag of values stored in one skip
  list. It offers membership, count, insert, remove, clear, length, equality,
  subset (`<=`), difference (`-`, `-=`), sum (`+`, `+=`), intersection (`&`,
  `&=`) and disjointness.
- **Regular expressions** (`3-regex/regex_functions.py`): expressions over the
  alphabet `0 1 2 e`.
  - `is_regex` recognises fully bracketed expressions such as `((0.1)|2*)`.
  - `all_regex_permutations` lists every rearrangement of a string that is an
    expression.
  - `build_regex_tree` parses an expression into a tree.
  - `is_valid_tree` checks a tree.
  - `regex_match` decides whether a tree matches a whole string.

## How the model represents them

**Skip list.**
- A skip list is its levels, bottom first. Each level is a `seq<int>` read
  from the head sentinel to the tail sentinel.
- The list also carries its stored `length` and its probability `p`, which is
  a `real`.
- The linked nodes are not modelled. The below-links are replaced by the
  facts that every level is sorted and that each level's values form a
  sub-multiset of the level beneath it (`SkipLists.Valid`).
- The abstract content is the bottom level as a multiset (`SkipLists.Elems`).
- Randomness is a parameter: a `seq<bool>` of coin outcomes, consumed one per
  promotion attempt. A list that runs out of coins counts as a failed flip.
  Every property holds for every coin sequence.

**Multiset.** A multiset wraps one skip list. Every operation is specified by
its effect on `MultiSets.Elems`, which is Dafny's `multiset<int>`.

**Regular expressions.**
- Expressions are strings.
- Trees form a datatype with `Leaf`, `Star`, `Dot` and `Bar`.
- `RegexSyntax.IsRegex` follows `is_regex` branch by branch. It is shown to
  accept exactly the renderings of valid trees.
- The matcher computes the same index sets as the source.
  - An index larger than the string means "consumed all of it", which is how
    the source treats the result `{1}` for an empty string.
  - The matcher's answer is proved equal to membership in the language of the
    tree (`RegexMatching.InLang`).

## Model

| member | source | states |
|---|---|---|
| SortedLevels.ScanBefore | 2-skiplist/skiplist.py:430-448 | the scan along one level stops at the first value not smaller than `x`; every value it passes is smaller than `x` |
| SortedLevels.BeforeIndex | 2-skiplist/skiplist.py:430-448 | in a sorted level, the values left of the stopping point are below `x` and the rest are at least `x` |
| SortedLevels.ScanFromHint | 2-skiplist/skiplist.py:450-469 | starting a level's scan at the node reached on the level above gives the same stopping point as starting at the head |
| SortedLevels.FoundIffMember | 2-skiplist/skiplist.py:402-413 | in a sorted level, the node after the stopping point holds `x` exactly when the level contains `x` |
| SortedLevels.InsertSorted | 2-skiplist/skiplist.py:556-592 | linking a node in after the stopping point: earlier nodes stay where they are, the new node takes that position, later nodes shift right |
| SortedLevels.InsertSortedFacts | 2-skiplist/skiplist.py:556-592 | linking `x` in adds exactly one copy of `x` and keeps a sorted level sorted |
| SortedLevels.DeleteAt | 2-skiplist/skiplist.py:500-530 | unlinking a node keeps the nodes before it, shifts the ones after it left by one, and keeps the level sorted |
| SortedLevels.DeleteAtMultiset | 2-skiplist/skiplist.py:500-530 | unlinking a node removes exactly one copy of its value |
| SortedLevels.SortedUnique | 2-skiplist/skiplist.py:657-682 | two sorted levels holding the same multiset of values are equal |
| SkipLists.New | 2-skiplist/skiplist.py:378-400 | construction succeeds exactly when `0 < p < 1`, giving a valid empty list with that `p`; otherwise the rejection carries the offending `p` |
| SkipLists.Default | 2-skiplist/skiplist.py:378-400 | the default list is valid and empty and uses the default probability |
| SkipLists.RejectionMessage | 2-skiplist/skiplist.py:306-322 | a rejected `p` at most 0 yields the "greater than 0" message, and one at least 1 yields the "less than 1" message |
| SkipLists.ProbMessageAsWritten | 2-skiplist/skiplist.py:318-322 | the message lookup as written; characterised by SkipLists.MessageLookupFails, which shows it fails with a name lookup error |
| SkipLists.MessageLookupFails | 2-skiplist/skiplist.py:318-322 | converting the rejection of `p = 0` to text fails with a name lookup error, although the intended message exists |
| SkipLists.RecSearchBefore | 2-skiplist/skiplist.py:450-469 | the highest level on which the scan finds `x`, or none when no level holds it |
| SkipLists.Search | 2-skiplist/skiplist.py:402-413 | the result is the value `x` when the list holds it and nothing otherwise |
| SkipLists.Height | 2-skiplist/skiplist.py:556-592 | the number of promotions is the length of the run of successful flips |
| SkipLists.NewLevels | 2-skiplist/skiplist.py:594-612 | one fresh level is stacked per successful flip, and each fresh level holds only `x` |
| SkipLists.InsertLevels | 2-skiplist/skiplist.py:556-592 | the levels up to the promotion height receive one copy of `x` at its sorted place, levels beyond the old top hold only `x`, and the levels above the height are unchanged |
| SkipLists.Promote | 2-skiplist/skiplist.py:556-592 | promotion links `x` into the existing upper levels it reaches and adds one-value levels above them |
| SkipLists.InsertedShapeKeepsInvariants | 2-skiplist/skiplist.py:532-592 | a level stack reshaped by insertion stays sorted, stays a tower, and keeps empty levels only at the top |
| SkipLists.Insert | 2-skiplist/skiplist.py:532-554 | insertion keeps the list valid, adds one copy of `x`, increases the length by one and links `x` in at the scan point of the bottom level |
| SkipLists.InsertAll | 2-skiplist/skiplist.py:614-620 | inserting a sequence adds exactly its values and its length, whatever the coins |
| SkipLists.UnlinkMultiset | 2-skiplist/skiplist.py:500-530 | unlinking the found node of a level removes one copy of `x` from that level |
| SkipLists.RecRemoval | 2-skiplist/skiplist.py:500-530 | `_rec_removal`; characterised by SkipLists.RecRemovalShape, next row |
| SkipLists.RecRemovalShape | 2-skiplist/skiplist.py:500-530 | the recursive removal unlinks `x` from each level up to the one it starts from and reports the lowest level it emptied |
| SkipLists.RemovedLevels | 2-skiplist/skiplist.py:471-498 | the levels `remove` leaves; characterised by SkipLists.RemovedLevelsShape, next row |
| SkipLists.RemovedLevelsShape | 2-skiplist/skiplist.py:471-530 | after removal every level loses one copy of `x` if it had one, the bottom loses exactly one node, and the invariants hold |
| SkipLists.HighestHolder | 2-skiplist/skiplist.py:450-469 | the level found by the search is the highest holding `x`, and `x` is found on every level below it |
| SkipLists.Remove | 2-skiplist/skiplist.py:471-498 | removal reports success exactly when `x` was present; it then removes one copy and decreases the length, and otherwise leaves the list unchanged |
| SkipLists.CountRun | 2-skiplist/skiplist.py:622-638 | every node the counting loop passes holds `x`, and the loop stops at the end of the level or at a node holding another value |
| SkipLists.CountRunIsMultiplicity | 2-skiplist/skiplist.py:622-638 | counting equal nodes from the scan point of a sorted level gives the multiplicity of `x` |
| SkipLists.Count | 2-skiplist/skiplist.py:622-638 | the count is the number of occurrences of `x` |
| SkipLists.NodeCount | 2-skiplist/skiplist.py:269-284 | counting from a node along a sorted level gives the occurrences of `x` from that node onwards |
| SkipLists.Len | 2-skiplist/skiplist.py:649-655 | the stored length is the number of stored values |
| SkipLists.Walk | 2-skiplist/skiplist.py:325-376 | the iterator over a level; characterised by SkipLists.WalkAll, SkipLists.WalkUniqueMembers and SkipLists.WalkUniqueOrdered, next rows |
| SkipLists.WalkAll | 2-skiplist/skiplist.py:325-376 | the plain iterator yields the bottom level unchanged |
| SkipLists.WalkUniqueMembers | 2-skiplist/skiplist.py:325-376 | the unique iterator yields exactly the values of the level that differ from the value last yielded |
| SkipLists.WalkUniqueOrdered | 2-skiplist/skiplist.py:325-376 | the unique iterator yields strictly increasing values, all above the value last yielded |
| SkipLists.Values | 2-skiplist/skiplist.py:684-693 | iteration yields a sorted sequence whose multiset is the list's contents |
| SkipLists.UniqueValues | 2-skiplist/skiplist.py:695-706 | unique iteration yields each stored value exactly once, in increasing order |
| SkipLists.PairwiseEqual | 2-skiplist/skiplist.py:657-682 | the lockstep comparison holds exactly when the two sequences agree on every common position |
| SkipLists.Equal | 2-skiplist/skiplist.py:657-682 | two lists are equal exactly when they hold the same multiset of values, and exactly when their bottom levels coincide |
| SkipLists.NewAveraged | 2-skiplist/skiplist.py:708-717 | combining two valid probabilities always succeeds and yields an empty list whose `p` is their mean |
| SkipLists.Concat | 2-skiplist/skiplist.py:719-732 | `+` yields a valid list holding both operands' values, with the summed length and the averaged `p` |
| SkipLists.ConcatInPlace | 2-skiplist/skiplist.py:734-742 | `+=` adds the other list's values, sums the lengths and keeps the receiver's `p` |
| MultiSets.Empty | 1-multiset/multiset.py:20-27 | a fresh multiset is valid and empty and uses the default skip list |
| MultiSets.ContainsAsWritten | 1-multiset/multiset.py:29-40 | membership as written holds exactly when `x` is present and is not 0 |
| MultiSets.StoredZeroMissed | 1-multiset/multiset.py:29-40 | a multiset holding one 0 counts one occurrence of it, yet membership as written denies it |
| MultiSets.Contains | 1-multiset/multiset.py:29-40 | membership holds exactly when there is at least one occurrence |
| MultiSets.Count | 1-multiset/multiset.py:42-51 | the count is the number of occurrences |
| MultiSets.Insert | 1-multiset/multiset.py:53-66 | insertion adds one occurrence |
| MultiSets.Remove | 1-multiset/multiset.py:68-73 | removal takes away one occurrence if there is one |
| MultiSets.Clear | 1-multiset/multiset.py:75-80 | clearing leaves an empty multiset of length 0 |
| MultiSets.Len | 1-multiset/multiset.py:82-87 | the length is the total number of occurrences |
| MultiSets.Equal | 1-multiset/multiset.py:105-111 | equality holds exactly when every value occurs equally often in both |
| MultiSets.SubsetOf | 1-multiset/multiset.py:113-132 | `<=` holds exactly when no value occurs more often in the left operand than in the right |
| MultiSets.InsertCopies | 1-multiset/multiset.py:134-150 | inserting `n` copies raises the count of `x` by `n` when `n` is positive and leaves other counts alone |
| MultiSets.Difference | 1-multiset/multiset.py:134-150 | `-` yields the multiset difference |
| MultiSets.TryRemove | 1-multiset/multiset.py:158-165 | the skip list removal inside the loop of `-=` reports success exactly when `x` was present, and takes away one occurrence |
| MultiSets.RemoveUpTo | 1-multiset/multiset.py:158-165 | the inner removal loop of `-=` takes away up to `limit` copies of `x`, stopping when none are left |
| MultiSets.DifferenceUpdate | 1-multiset/multiset.py:152-167 | `-=` leaves the multiset difference |
| MultiSets.Union | 1-multiset/multiset.py:169-177 | `+` yields the sum of the two multisets and of their lengths |
| MultiSets.UnionUpdate | 1-multiset/multiset.py:179-185 | `+=` yields the sum of the two multisets and of their lengths |
| MultiSets.MinCopies | 1-multiset/multiset.py:187-213 | copying each value of one operand the smaller number of times gives the intersection |
| MultiSets.Intersection | 1-multiset/multiset.py:187-213 | `&` yields the multiset intersection, each value at its smaller count |
| MultiSets.AddIfAbsent | 1-multiset/multiset.py:222-227 | a value is inserted only when the list does not yet hold it |
| MultiSets.CollectUnique | 1-multiset/multiset.py:222-224 | collecting the left operand's distinct values gives each of them once |
| MultiSets.CollectMissing | 1-multiset/multiset.py:225-227 | adding the right operand's missing values gives each value of either operand once |
| MultiSets.TrimToMin | 1-multiset/multiset.py:230-241 | trimming every value down to its count in the other operand leaves the intersection |
| MultiSets.IntersectionUpdate | 1-multiset/multiset.py:215-243 | `&=` leaves the multiset intersection |
| MultiSets.EmptyIntersection | 1-multiset/multiset.py:245-249 | the intersection is empty exactly when the operands share no value |
| MultiSets.IsDisjoint | 1-multiset/multiset.py:245-249 | disjointness holds exactly when no value occurs in both operands |
| RegexSyntax.LeafSymbols | 3-regex/regex_functions.py:109-123 | the leaf symbols are exactly `0`, `1`, `2` and `e` |
| RegexSyntax.FindOperator | 3-regex/regex_functions.py:126-160 | the result is the first `.` or `\|` outside all brackets, or the length when there is none |
| RegexSyntax.FirstTopOperator | 3-regex/regex_functions.py:126-160 | any position holding the first unbracketed operator is the one the scan finds |
| RegexSyntax.ScanExamples | 3-regex/regex_functions.py:109-160 | the documented examples of the operator scan and the leaf test |
| RegexSyntax.IsRegex | 3-regex/regex_functions.py:55-106 | `is_regex`; characterised by RegexSyntax.RegexIffGrammar: it accepts exactly the texts of valid trees |
| RegexSyntax.BracketGuard | 3-regex/regex_functions.py:55-106 | for a bracketed string, the split point is in range, and the string is an expression exactly when both sides of the first unbracketed operator are expressions |
| RegexSyntax.IsValidTree | 3-regex/regex_functions.py:277-331 | `is_valid_tree`; characterised by RegexSyntax.ValidIffLeaves, next row |
| RegexSyntax.ValidIffLeaves | 3-regex/regex_functions.py:277-331 | a tree is valid exactly when every leaf carries a leaf symbol |
| RegexSyntax.BuildTree | 3-regex/regex_functions.py:586-607 | parsing an expression gives a valid tree that renders back to the same string |
| RegexSyntax.BuildBinary | 3-regex/regex_functions.py:610-643 | parsing a bracketed expression gives a valid tree that renders back to it |
| RegexSyntax.BuildRegexTree | 3-regex/regex_functions.py:562-583 | parsing fails, with the unsupported-format error, exactly when the string is not an expression; otherwise it gives a valid tree rendering to the string |
| RegexSyntax.RenderBalanced | 3-regex/regex_functions.py:55-106 | the text of a valid tree is non-empty and its brackets are balanced |
| RegexSyntax.SplitsAtJoin | 3-regex/regex_functions.py:126-160 | in a bracket-balanced left part followed by an operator, the first unbracketed operator is that one |
| RegexSyntax.RenderParses | 3-regex/regex_functions.py:55-106 | the text of every valid tree is an expression, and parsing it gives the tree back |
| RegexSyntax.BuildsBack | 3-regex/regex_functions.py:562-583 | building from the text of a valid tree succeeds with that tree |
| RegexSyntax.RegexIffGrammar | 3-regex/regex_functions.py:55-106 | a string is an expression exactly when it is the text of some valid tree |
| RegexSyntax.RegexExamples | 3-regex/regex_functions.py:55-106 | the documented accepted and rejected strings, except the nested one of the next row |
| RegexSyntax.NestedRegexExample | 3-regex/regex_functions.py:73-74 | the documented nested expression `((1.(0\|2)*).1)` is accepted |
| RegexSyntax.PermuteStr | 3-regex/regex_functions.py:181-205 | `_permute_str`; characterised by RegexSyntax.PermuteStrExact, next row |
| RegexSyntax.PermuteStrExact | 3-regex/regex_functions.py:181-205 | the rearrangements of a non-empty string are exactly the strings with the same characters and counts; the empty string has none |
| RegexSyntax.AllRegexPermutations | 3-regex/regex_functions.py:163-178 | `all_regex_permutations`; characterised by RegexSyntax.AllRegexPermutationsExact, next row |
| RegexSyntax.AllRegexPermutationsExact | 3-regex/regex_functions.py:163-178 | the result holds exactly the expressions that rearrange the given string |
| RegexSyntax.PermutationExamples | 3-regex/regex_functions.py:163-205 | the documented permutation results for `1` and for the empty string |
| RegexSyntax.ThreeCharPermutations | 3-regex/regex_functions.py:189-191 | the rearrangements of `(*)` are exactly the six documented strings |
| RegexSyntax.SampleTrees | 3-regex/regex_functions.py:163-178 | every valid tree whose text has the characters of `)0\|2*(` renders to one of the six documented expressions |
| RegexSyntax.SampleCharactersPermutations | 3-regex/regex_functions.py:163-178 | the expressions that rearrange any string with the characters of `)0\|2*(` are exactly the six documented ones |
| RegexSyntax.SamplePermutations | 3-regex/regex_functions.py:171-173 | the documented result for `)0\|2*(` |
| RegexMatching.StarAppend | 3-regex/regex_functions.py:435-491 | the language of a star is closed under concatenation |
| RegexMatching.StarOfStar | 3-regex/regex_functions.py:435-491 | a star of a star matches exactly what the inner star matches |
| RegexMatching.MatchIndices | 3-regex/regex_functions.py:334-390 | every reported index is at most the string length plus the tree size; RegexMatching.Sound and RegexMatching.Complete characterise the set exactly once indices past the end are clamped to the string length |
| RegexMatching.ApplyBar | 3-regex/regex_functions.py:494-521 | every index a bar reports is at most the string length plus the sizes of its sides; RegexMatching.Sound and RegexMatching.Complete characterise it exactly once indices past the end are clamped to the string length |
| RegexMatching.ApplyDot | 3-regex/regex_functions.py:524-559 | every index a dot reports is at most the string length plus the sizes of its sides; RegexMatching.Sound and RegexMatching.Complete characterise it exactly once indices past the end are clamped to the string length |
| RegexMatching.ApplyBasic | 3-regex/regex_functions.py:393-432 | a leaf advances by at most one character; a symbol other than `e` advances only over that same character |
| RegexMatching.ApplyStar | 3-regex/regex_functions.py:435-491 | a star reports `{1}` on the empty string, always includes 0 on a non-empty string, and never advances past the string plus the tree size |
| RegexMatching.Schedule | 3-regex/regex_functions.py:466-489 | scheduling keeps the work list free of duplicates and keeps it as a prefix; it adds exactly the positions `start + j` for the child's results `j` between `p` and `top` |
| RegexMatching.Advance | 3-regex/regex_functions.py:466-489 | one turn of the star's work loop adds exactly the positions the child reaches from the current start, and only appends to the list |
| RegexMatching.StarLoop | 3-regex/regex_functions.py:466-489 | the work loop's result contains every scheduled position and stays within the bound |
| RegexMatching.DistinctBounded | 3-regex/regex_functions.py:466-489 | a duplicate-free list of bounded positions is bounded in length, so the work loop ends |
| RegexMatching.Sound | 3-regex/regex_functions.py:334-559 | every index the matcher reports for a valid tree marks a prefix in the tree's language |
| RegexMatching.Complete | 3-regex/regex_functions.py:334-559 | every prefix in the tree's language is marked by some reported index |
| RegexMatching.MatchMeaning | 3-regex/regex_functions.py:208-274 | a valid tree reaches the end of the string exactly when the whole string is in its language |
| RegexMatching.RegexMatch | 3-regex/regex_functions.py:208-274 | matching fails, with the unsupported-tree error, exactly when the tree is invalid; otherwise the answer is whether the string is in the tree's language |
| RegexMatching.BasicExamples | 3-regex/regex_functions.py:404-415 | the six documented results of the leaf step |
| RegexMatching.StarOfChar | 3-regex/regex_functions.py:214-216 | the star of a one-character leaf matches exactly the strings made only of that character |
| RegexMatching.MatchExamples | 3-regex/regex_functions.py:228-264 | the documented match results for the two leaves, the star on the empty string, the dot on `01` and `0`, the dot `(e.1)`, both bars on the empty string, and the failure on an invalid leaf |
| RegexMatching.StarMatchExamples | 3-regex/regex_functions.py:232-235 | the documented results of the star of `1` on `11111111` and `111110111` |
| RegexMatching.DotBarMatchExamples | 3-regex/regex_functions.py:240-251 | the documented results of the dot `(0.1)` on the empty string and on `1`, and of the bar `(0\|1)` on `0` and `1` |
| RegexMatching.CompoundMatches | 3-regex/regex_functions.py:256-258 | the documented compound tree matches `022` |
| RegexMatching.CompoundRejects | 3-regex/regex_functions.py:256-260 | the documented compound tree does not match `01` |

## Left out

- Values are integers with their usual order. Comparing values of incomparable types, and the `TypeError` paths that follow, are not modelled. This covers:
  - `count` returning 0 after a `TypeError`;
  - `remove` answering `False` after one;
  - `__contains__` answering `False` after one.
- Random flips are a parameter sequence of outcomes rather than draws from a generator. The probability `p` is a `real`, and floating-point rounding of the average in `new_averaged_skip_list` is not modelled.
- The linked node structure, including node sharing, below-links and the tail sentinel, is abstracted into sequences of values.
- Mutation is not modelled. In the source, `insert`, `remove`, `clear`, `+=`, `-=` and `&=` mutate the receiver, and `remove` returns `None`. The model returns the new state instead. Aliasing is therefore not modelled either. In the self-aliased cases `a -= a` and `a &= a`, the source ends in the state the model returns: empty and unchanged, respectively.
- Text rendering is not modelled: `__str__`, `__repr__`, `level_to_str` and `levels_to_str`. These are formatting only.
- The node classes' own `__len__` and comparison operators are not modelled. They are used in the level scan, in the loop of `count` and in the unique iterator's test against the last value yielded. In all three the model compares values directly, which behaves the same.
- SkipLists.Remove follows the code rather than the documented invariant that no level is empty. When removal empties several levels, the lowest emptied level becomes the new top and stays in the list. The proved invariant is that only the top level may be empty.
- SkipLists.New takes `p` as a `real`, so non-numeric arguments do not exist in the model.
- `_search_before` is `RecSearchBefore` started from the top level. Its `TypeError` re-raise is left out with the other `TypeError` paths.
- `3-regex/regex_functions_bool.py` and the test files are not part of this model.
- The regex tree classes from the course's `regextree` module are not part of this model. The tree datatype stands in for them:
  - it has fixed arity, so trees with missing children cannot be written;
  - the internal "unsupported regex tree" error in `_regex_match_helper` cannot arise.
- RegexMatching.ApplyStar iterates the index set of each round in increasing order. The source iterates a Python set, whose order is unspecified. The resulting set does not depend on that order.
- RegexMatching.RegexMatch expresses the source's test that the largest index is at least the string length as "some index is at least the string length". These are equivalent for a non-empty set.

## Findings

| source | as written | input that shows it | evidently intended | confidence | as-written member | corrected member |
|---|---|---|---|---|---|---|
| 2-skiplist/skiplist.py:318-322 | `__str__` of the nested `RandProbException` refers to the class by its bare name, which is not a module-level name | `str(SkipList.RandProbException(0))` raises `NameError` | the "greater than 0" or "less than 1" message | not executed | SkipLists.MessageLookupFails | SkipLists.RejectionMessage |
| 1-multiset/multiset.py:29-40 | membership is the truth value of what `search` returns, which is the stored value itself | `m.insert(0)` then `0 in m` answers `False` although `m.count(0) == 1` | true whenever there is at least one occurrence | not executed | MultiSets.StoredZeroMissed | MultiSets.Contains |
