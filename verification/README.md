# A verified model of the JSON comparator

`json_comparator.py` compares two parsed JSON documents. It walks the first
document and pairs each value with the value at the same place in the second.
Objects are paired by key. Arrays are paired by position, as `zip_longest`
pairs them, with a placeholder on the shorter side. Each scalar pair is
scored by `fuzz.ratio` on the lower-cased `str()` renderings. A pair whose
score is below the threshold is one difference, and its path is recorded.
`get_comparison` divides the number of matching values by the tally of
comparable values in the first document (`count_values`).

This project models that core in Dafny and proves what it computes:

- `results.dfy`: the `Option` and `Result` wrappers. `Result` carries the exceptions the source raises.
- `sequences.dfy`: sequence facts over an arbitrary element type.
- `json_value.dfy`: a document is `Obj` (an association list), `Arr`, `Str`, `Num` (`Int` or `Float`), `Bool`, `Null`, or `Absent`. `Absent` is the `object()` fill value of `zip_longest`. The file also models:
  - subscripting (`json_data_2[key]`);
  - the iteration `zip_longest` performs on the second document;
  - the scalar leaves of a document, in document order.
- `fuzzy.dfy`: `fuzzy_match`. The ratio library, `str()` of numbers, containers and `object()`, and the lower-casing of non-ASCII characters are the fields of an `Oracle` value. `WellBehaved` states all the model assumes of them: the ratio lies in 0..100, and equal strings score 100. `str()` of strings, booleans and `None`, and ASCII lower-casing, are modelled exactly.
- `tally.dfy`: `count_values` with its five counters.
- `comparator.dfy`: `compare_json`. A difference is kept as a `Diff(path, left, right)` record. `Describe` renders the record as the source's message.
- `traversal.dfy`: the same walk without scoring (`Pairings`). The comparator is proved to be this walk followed by the threshold filter (`Judge`).
- `properties.dfy`: the following relational properties:
  - threshold monotonicity;
  - reflexivity;
  - the bound on the difference count;
  - closed forms of the object and array loops;
  - independence from the order in which object keys are visited.
- `session.dfy`: `get_comparison`, a corrected version of it, and worked examples.

The threshold is a `real`, because the source compares the integer ratio with
whatever number it was given. The source's object loop runs over
`set(json_data_1.keys())`, whose order Python leaves unspecified. The model
walks the entries in the order they are stored. `Properties.ObjectOrderIrrelevant`
shows that any other order gives the same outcome, the same count and the same
multiset of differences.

The model follows the code where the docstring of `compare_json`
(json_comparator.py:108) says it raises nothing:

- A key of the first object that is missing from the second raises `KeyError` (line 124).
- A second document that cannot be subscripted by a key raises `TypeError` (line 124).
- A second document that cannot be iterated beside an array raises `TypeError` (line 132).

In each case the model returns a `Failure`, and `get_comparison` turns it into
the exception's text (`Report.Raised`). `Properties.MissingKeyRaises` states the first.

When the first document is an array, `zip_longest` iterates the second one:

- a list gives its items;
- a string gives its characters;
- an object gives its keys;
- anything else raises `TypeError`, even when the array is empty.

## Model

| member | source | states |
|---|---|---|
| JsonValue.FindKey | json_comparator.py:124 | the lookup succeeds exactly when some entry has the key, and then returns a value stored under it; otherwise it fails with `MissingKey` for that key |
| JsonValue.Subscript | json_comparator.py:124 | `json_data_2[key]` succeeds only on an object that holds the key; a missing key is `MissingKey` and a non-object is `NotSubscriptable` |
| JsonValue.SubscriptEntry | json_comparator.py:124 | in an object with distinct keys, subscripting with the key of entry `i` yields exactly the value of entry `i` |
| JsonValue.Iterate | json_comparator.py:132 | `zip_longest` iterates a list as its items, a string as its one-character strings, an object as its keys (one per entry, in order), and fails on anything else |
| JsonValue.IterateStringRestores | json_comparator.py:132 | joining the one-character strings `zip_longest` draws from a string gives the string back, so no character is lost, added or reordered |
| JsonValue.IterateObjectKeys | json_comparator.py:132 | iterating an object yields only strings, and yields `k` exactly when `k` can subscript the object |
| ValueTally.Census | json_comparator.py:81-84 | every array adds at least its own length to `array_members`; the exact counter is stated by `ValueTally.CensusCountsArrayMembers` and the kind counters by `ValueTally.CensusCountsLeaves` |
| JsonValue.Leaves | json_comparator.py:78-92 | every value the tally visits is a scalar (string, number, boolean or null); no container or placeholder is ever tallied |
| Fuzzy.Lower | json_comparator.py:55-56 | lower-casing ASCII text keeps its length, stays ASCII and leaves no capital letter |
| Fuzzy.LowerEachChar | json_comparator.py:55-56 | on ASCII text, lower-casing maps each capital to its own lower-case letter and leaves every other character as it is |
| Fuzzy.LowerFixesLowercase | json_comparator.py:55-56 | lower-casing is the identity on ASCII text without capitals |
| Fuzzy.LowerCapitalised | json_comparator.py:55-56 | a capitalised ASCII word lower-cases to the same word with its first letter lowered |
| Fuzzy.Render | json_comparator.py:53-54 | `str()` of a string is the string itself; `str()` of a boolean or of `None` is a capitalised ASCII word |
| Fuzzy.FuzzyMatch | json_comparator.py:39-57 | under a well-behaved ratio the score lies in 0..100, and it is 100 whenever the lower-cased renderings of the two values coincide |
| Fuzzy.MatchesOwnWord | json_comparator.py:53-57 | a value whose lower-cased rendering is the lower-case word `w` scores 100 against the string `w` under a well-behaved ratio |
| Fuzzy.TrueName | json_comparator.py:53-57 | `True` scores 100 against the string `"true"`: the boolean and its name are never a difference |
| Fuzzy.FalseName | json_comparator.py:53-57 | `False` scores 100 against the string `"false"` |
| Fuzzy.NoneName | json_comparator.py:53-57 | `None` scores 100 against the string `"none"` |
| Fuzzy.RenderedNames | json_comparator.py:53-57 | every boolean and null scores 100 against the string of its own lower-cased name |
| ValueTally.CountValues | json_comparator.py:61-97 | the total equals the number of scalar leaves of the document (strings, numbers, booleans, nulls), so array membership adds nothing |
| ValueTally.CensusCountsLeaves | json_comparator.py:70-92 | each counter of the tally (`Census`) equals the number of leaves of its kind; booleans are counted as booleans and never as numbers |
| ValueTally.EntryCensusCountsLeaves | json_comparator.py:78-80 | the same for the object loop of the tally (`EntryCensus`), from entry `i` on |
| ValueTally.ItemCensusCountsLeaves | json_comparator.py:81-84 | the same for the array loop of the tally (`ItemCensus`), from position `i` on |
| ValueTally.CensusCountsArrayMembers | json_comparator.py:81-84 | `array_members` is exactly the sum of the lengths of every array in the tree (`Arrays`), nested ones included |
| ValueTally.EntryCensusCountsArrayMembers | json_comparator.py:78-80 | the same for the object loop of the tally, from entry `i` on |
| ValueTally.ItemCensusCountsArrayMembers | json_comparator.py:81-84 | the same for the array loop of the tally, from position `i` on |
| ValueTally.CountKindAppend | json_comparator.py:79-84 | counting a kind is additive over the concatenation of two runs of leaves |
| ValueTally.CountKindsPartition | json_comparator.py:85-96 | every scalar has exactly one kind, so the four counts sum to the number of scalars |
| Comparator.Decimal | json_comparator.py:134 | an index is printed as a canonical numeral (decimal digits, no leading zero) that denotes exactly that index |
| Comparator.DecimalOfDigits | json_comparator.py:134 | every canonical numeral is the one printed for the number it denotes, so printing is a bijection onto canonical numerals |
| Comparator.KeyPathParts | json_comparator.py:124 | a member's path is its bare key when the parent path is empty (the source tests the path, not the depth), and otherwise the parent's path, a dot, then the key |
| Comparator.KeyPathsDistinct | json_comparator.py:124 | different keys under one parent get different paths |
| Comparator.IndexPathParts | json_comparator.py:134 | a position's path is the parent's path, then the index in brackets, and the index can be read back from it |
| Comparator.IndexPathsDistinct | json_comparator.py:134 | different positions under one parent get different paths |
| Comparator.JoinMonoid | json_comparator.py:125-126 | adding a child's count and extending by its differences keeps the count equal to the number of differences, is associative, and is unchanged by an empty child |
| Comparator.CompareLeaf | json_comparator.py:138-144 | a scalar pair yields exactly one difference, recorded with its path and both values, when its score is below the threshold, and none otherwise |
| Comparator.Describe | json_comparator.py:141 | a difference message begins with `Value difference at ` followed by the path |
| Comparator.Messages | json_comparator.py:141-142 | the differences list holds one message per recorded difference, in order |
| Comparator.DescribeStrings | json_comparator.py:141 | the message of `Hello` against `World` at `x` is `Value difference at x: 'Hello' vs 'World'`, whatever the ratio |
| Comparator.Compare | json_comparator.py:100-144 | on success the count equals the number of recorded differences, and every difference pairs a non-container first value whose score is below the threshold |
| Comparator.CompareEntries | json_comparator.py:118-126 | the same for the object loop from entry `i` on |
| Comparator.CompareItems | json_comparator.py:129-136 | the same for the array loop from position `i` on |
| Traversal.Pairings | json_comparator.py:100-144 | the unscored walk visits only pairs whose first value is not a container |
| Traversal.EntryPairings | json_comparator.py:118-126 | the same for the object loop |
| Traversal.ItemPairings | json_comparator.py:129-136 | the same for the array loop |
| Traversal.Failing | json_comparator.py:139-142 | filtering by score never lengthens the list |
| Traversal.FailingMembers | json_comparator.py:139-142 | a pair is kept exactly when it was visited and scores below the threshold |
| Traversal.FailingAppend | json_comparator.py:125-126 | filtering distributes over the concatenation of child lists (`differences.extend`) |
| Traversal.JudgeJoin | json_comparator.py:125-126 | scoring two concatenated walks equals adding the two scored results |
| Traversal.CompareIsJudgedPairings | json_comparator.py:118-144 | `compare_json` raises exactly when the unscored walk does, with the same fault; otherwise its differences are the visited pairs that score below the threshold, in visiting order, and its count is their number |
| Traversal.EntriesAreJudged | json_comparator.py:118-126 | the same for the object loop |
| Traversal.ItemsAreJudged | json_comparator.py:129-136 | the same for the array loop |
| Traversal.LeftLeaves | json_comparator.py:132 | the first-tree values of the visited pairs, with the placeholder dropped, are scalars |
| Traversal.Padded | json_comparator.py:132 | every visited pair is either a leaf of the first tree or a padded position |
| Traversal.LeftLeavesAppend | json_comparator.py:126 | the first-tree leaves of concatenated walks are the concatenated leaves |
| Traversal.PairingsCoverLeaves | json_comparator.py:78-92 | the walk visits every tallied value of the first document exactly once, in document order |
| Traversal.EntryPairingsCoverLeaves | json_comparator.py:118-126 | the same for the object loop |
| Traversal.ItemPairingsCoverLeaves | json_comparator.py:129-136 | the same for the array loop |
| Traversal.PairingsOfSelf | json_comparator.py:118-136 | walking a well-formed document against itself never raises, and pairs every leaf with an equal value |
| Traversal.EntryPairingsOfSelf | json_comparator.py:118-126 | the same for the object loop |
| Traversal.ItemPairingsOfSelf | json_comparator.py:129-136 | the same for the array loop |
| Properties.FailingNested | json_comparator.py:140 | filtering at a lower threshold after a higher one is filtering at the lower one |
| Properties.ThresholdMonotonic | json_comparator.py:118-142 | the threshold decides neither whether the comparison raises nor which fault it raises; a lower threshold never raises the count, and its differences are exactly those at the higher threshold that also fail the lower test |
| Properties.FailingNone | json_comparator.py:44-45 | when every pair has equal sides and the ratio is well behaved, no pair fails a threshold of at most 100 |
| Properties.CompareSelf | json_comparator.py:118-144 | a well-formed document compared with itself has no differences when the ratio is well behaved and the threshold is at most 100 |
| Properties.CountBound | json_comparator.py:96 | the walk visits `count_values(a)` pairs plus the padded positions, so the difference count never exceeds that sum |
| Properties.Gather | json_comparator.py:122-126 | combining the children of a loop succeeds exactly when every child succeeds |
| Properties.EntriesGather | json_comparator.py:118-126 | the object loop from entry `i` is the combination of one subscript-then-compare per remaining entry |
| Properties.ObjectTraversal | json_comparator.py:118-126 | comparing an object is exactly: for each of its entries, subscript the second tree with the key and compare the values, combined in order |
| Properties.MissingKeyRaises | json_comparator.py:124 | if any key of the first object cannot be subscripted in the second tree, the whole comparison raises instead of counting a difference |
| Properties.KeysOnlyInSecondIgnored | json_comparator.py:120-124 | members that only the second object has never affect the result, wherever they sit among its entries |
| Properties.FindKeySkip | json_comparator.py:124 | a lookup is unchanged when entries with other keys are inserted anywhere |
| Properties.FindKeyDrop | json_comparator.py:124 | entries with other keys in front of a lookup are passed over |
| Properties.ItemsGather | json_comparator.py:129-136 | the array loop from position `i` is the combination of the comparisons at the remaining positions |
| Properties.ArrayTraversal | json_comparator.py:129-136 | a second tree that cannot be iterated raises; otherwise exactly `max(len(a), len(b))` positions are compared in index order, with the placeholder on the shorter side |
| Properties.SummaryJoin | json_comparator.py:125-126 | adding two results adds their counts and their multisets of differences |
| Properties.GatherStep | json_comparator.py:122-126 | the summary of a loop is the first child's summary merged with the summary of the rest |
| Properties.MergeSwap | json_comparator.py:122-126 | merging summaries does not depend on order |
| Properties.GatherRemove | json_comparator.py:122-126 | any one child can be taken out and merged separately without changing the loop's summary |
| Properties.GatherPermutation | json_comparator.py:122-126 | permuting the children of a loop leaves its summary unchanged |
| Properties.ChildResultsPermutation | json_comparator.py:120-124 | permuting the entries of the first object permutes the children's results |
| Properties.ObjectOrderIrrelevant | json_comparator.py:120-122 | any visiting order of the first object's keys gives the same outcome: it raises in all orders or in none, and otherwise the count and the multiset of differences agree |
| Session.GetComparison | json_comparator.py:154-167 | the report raises exactly when the comparison raises, with the same fault; there is nothing to compare exactly when the comparison succeeds on a document without scalars; otherwise the total is the number of scalars of the first document, the differences are the comparison's, and matching plus differences equals the total |
| Session.Score | json_comparator.py:158-167 | a raised comparison is reported as its fault; an empty tally means nothing to compare; otherwise the report keeps the total and the differences, and matching plus differences equals the total |
| Session.SimilarityInRange | json_comparator.py:155-161 | when no item of the second document overhangs its partner array, the number of matching values lies between 0 and the total |
| Session.FitsInRange | json_comparator.py:155-161 | the same range whenever the documents line up (`Fits`): no array of the first is paired with a longer iterable of the second |
| Properties.FitsHasNoOverhang | json_comparator.py:132 | when every array of the first document is at least as long as its partner in the second (and the first holds no placeholder), `zip_longest` never pads the first side |
| Properties.EntriesFitHaveNoOverhang | json_comparator.py:122-126 | the same for the object loop, from entry `i` on |
| Properties.ItemsFitHaveNoOverhang | json_comparator.py:132-136 | the same for the array loop, from position `i` on |
| Session.LongerDoesNotFit | json_comparator.py:132 | `[x]` against `[y, z]` does not line up |
| Session.GetComparisonCorrected | json_comparator.py:155-161 | the denominator is the tally plus the padded positions and the differences are the comparison's; it raises exactly when the comparison does, has nothing to compare exactly when there is no scored position, keeps matching values between 0 and the total, and equals the source's report whenever nothing overhangs |
| Session.ReportOf | json_comparator.py:158-162 | a successful comparison with `c` differences over `n > 0` values reports `n - c` matching values out of `n` |
| Session.AllMatch | json_comparator.py:158-162 | with no differences, every tallied value matches |
| Session.CaseInsensitiveExample | json_comparator.py:53-57 | `{"x": "Hello"}` against `{"x": "hello"}` is fully similar under any well-behaved ratio: case alone is no difference |
| Session.DissimilarExample | json_comparator.py:138-142 | `{"x": "Hello"}` against `{"x": "World"}` is one difference at path `x`, with 0 of 1 values matching, whenever the ratio scores "hello" against "world" below 90 |
| Session.ShorterArrayExample | json_comparator.py:129-142 | `{"arr": [1,2,3]}` against `{"arr": [1,2]}` reports 2 of 3 values matching and one difference, at `arr[2]`, where 3 faces the placeholder, whenever the ratio tells 3 from the placeholder |
| Session.EmptyExample | json_comparator.py:160-164 | two empty objects have nothing to compare |
| Session.NegativeSimilarity | json_comparator.py:155-162 | as written, `[x]` against `[y, z]` reports two differences over a total of one, with matching -1, whenever `x` differs from `y` and the placeholder from `z` |
| Session.CorrectedSimilarity | json_comparator.py:155-162 | the corrected computation reports the same input as 0 of 2 positions matching |
| Session.ExactOracleWellBehaved | json_comparator.py:44-45 | an exact-match ratio meets the two assumptions made of `fuzz.ratio` |
| Session.ExactOracleDiffers | json_comparator.py:139-140 | under the exact-match ratio at threshold 90, 1 differs from 2 and the placeholder differs from 3 |
| Session.MinusOneHundredPercent | json_comparator.py:155-162 | concretely, `[1]` against `[2, 3]` is reported as matching -1 of 1 value (-100%); the corrected computation reports 0 of 2 |

## Left out

- Loading and parsing the files (`load_json`, lines 7-37) is not modelled. The model starts from two parsed documents.
- The ratio is the `ratio` field of an `Oracle`, not `fuzz.ratio`. Only its range and the score of equal strings are assumed (`WellBehaved`).
- `str()` of numbers, containers and the `object()` placeholder is the `show` field of the oracle. Python's float formatting and the memory address inside `<object object at 0x…>` are not modelled.
- Lower-casing of non-ASCII characters is the `lowerWide` field of the oracle. Python's full Unicode case mapping is not modelled.
- The `except` branch of `fuzzy_match` (lines 58-59) is not modelled. It returns the exception text, and comparing that text with the threshold then raises. The ratio is taken to be total.
- The similarity percentage (`matching / total * 100`, formatted to two places, lines 161-162) is not modelled. `Report.Similar` keeps its integer ingredients `matching` and `total`.
- The message text of the caught exceptions is not modelled. The catch-all of `get_comparison` (lines 166-167) returns a `Fault` that names the kind of failure.
- Python's recursion limit on deeply nested documents is not modelled.
- Non-finite floats and the JSON parser's handling of duplicate keys are not modelled. `WellFormed` requires distinct keys where reflexivity needs them.
- Properties.ObjectOrderIrrelevant: the fault reported when several keys are missing is not claimed to be independent of the order. Python's set order decides which `KeyError` comes first. The lemma states that some fault is raised in every order or in none.
- Comparator.Compare: the difference list holds `Diff` records rather than strings. `Comparator.Messages` maps the records to the messages the source builds.

## Findings

| source | as written | input that shows it | evidently intended | confidence | as-written member | corrected member |
|---|---|---|---|---|---|---|
| json_comparator.py:155-162 | `matching_values_count = total_values - difference_count`, with `total_values` the tally of the first document only | `[1]` against `[2, 3]`: position 1 compares the placeholder with 3, a difference that the tally never counted, so the report is -100% similar | a similarity between 0% and 100%: positions that only the second document has are counted in the denominator too | not executed | Session.NegativeSimilarity | Session.GetComparisonCorrected |

`Session.MinusOneHundredPercent` exhibits the concrete case under an exact-match
ratio. `Session.CorrectedSimilarity` gives the corrected value for the same input.
