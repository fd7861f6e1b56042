# object-functions: array editing, lookups and the natural-order comparator

This project models the sequence-handling core of `ts/object-functions.ts`, a
small TypeScript utility module, and proves properties of the model in Dafny.
There are three groups.

- **In-place array editing** (module `ArrayEditing`): `removeFromArray`,
  `removeFromArrayAtIndex`, `insertToArrayAtIndex`,
  `moveElementInArrayOneIndex` and
  `moveElementInArrayWithIndexInArrayToOtherIndex`. They edit the caller's
  array in place with `splice`. A JavaScript array is modelled as the class
  `JsArrays.JsArray<T>`, whose field `elems: seq<T>` is reassigned by its
  `Splice` method, following ECMAScript's `Array.prototype.splice`. Negative
  indices count from the end and positions are clamped to the array. This
  keeps the aliasing of the source:
  - the `removeAll` branch of `removeFromArray` returns a `fresh` array and
    leaves the input untouched;
  - the single-removal branches edit the input and return that same object.
- **Pure lookups** (module `ArrayLookup`): `getSubarray` and the wrap-around
  neighbour lookups `getNextEntryOfArrayCycleThrough` and
  `getPreviousEntryOfArrayCycleThrough`. Each exception the source throws is a
  `Failure` of `Wrappers.Result`.
- **Natural-order comparator** (module `NaturalSort`):
  `sortingFunctionStringsWithNumbers`.
  - Strings are sequences of UTF-16 code units, so string `<` is
    code-unit lexicographic order (`LexLess`).
  - `Tokenize` models `match(/(\d+)|(\D+)/g) || []`.
  - The comparator is a method with the source's `while` loop. It is proved
    equal to the function `Compare`.
  - `Compare` is proved reflexive, antisymmetric and transitive. Runs of
    digits compare by value, so leading zeros do not count.

The equality `===` is Dafny's `==`. lodash's `isEqual` is not part of this
model. It is the function parameter `isEqual`, and no property of it is
assumed.

Three behaviours of the code are easy to misread:
- `getSubarray` rejects only `endIndex > length`, so `endIndex == length` is
  accepted. `slice` then stops at the end of the array.
- `startIndex == endIndex` is rejected, although the bounds are inclusive.
- `removeFromArrayAtIndex` with a negative index removes an element counted
  from the end. It does not leave the array alone.

## Model

| member | source | states |
|---|---|---|
| `JsArrays.ClampIndex` | ts/object-functions.ts:54 | a `splice`/`slice` position: within [0, len], the index itself when in range, counted from the end when negative, clamped outside |
| `JsArrays.DeleteCount` | ts/object-functions.ts:54 | `splice` never deletes past the end: exactly the requested count when it fits, none for a negative count, everything from start on when the count runs past the end |
| `JsArrays.Spliced` | ts/object-functions.ts:54 | the length after `splice`: old length minus the elements removed plus the inserted ones |
| `JsArrays.SpliceRemoved` | ts/object-functions.ts:54 | what `splice` returns is the deleted block, in order, at the clamped start: what is left with it put back in that place is the input |
| `JsArrays.Sliced` | ts/object-functions.ts:233 | `slice(start, end)` copies the elements from the clamped start up to the clamped end, in order |
| `JsArrays.IndexOf` | ts/object-functions.ts:68 | `indexOf` returns -1 iff the value is absent, else the first position holding it |
| `JsArrays.JsArray.constructor` | ts/object-functions.ts:42 | a new array holds exactly the given elements |
| `JsArrays.JsArray.Splice` | ts/object-functions.ts:24 | `splice` edits the array in place to the spliced contents and returns the removed elements |
| `JsArrays.SplicedRemoveOne` | ts/object-functions.ts:54 | removing one element at an in-range index closes the gap: `s[..i] + s[i+1..]` |
| `JsArrays.SplicedInsertOne` | ts/object-functions.ts:221 | inserting at 0 ≤ i ≤ length gives `s[..i] + [v] + s[i..]` |
| `ArrayEditing.StartMatches` | ts/object-functions.ts:17-22 | the findIndex callback: without checkForDeepObjects a match is exactly an element `===` value |
| `ArrayEditing.EndMatches` | ts/object-functions.ts:27-34 | the map callback yields an index for every element `===` value and for every START match; without checkForDeepObjects it matches exactly what START matches |
| `ArrayEditing.Kept` | ts/object-functions.ts:42-48 | the filter callback keeps exactly the non-matches: without checkForDeepObjects the elements START would not match, with it those that are not `isEqual(ele, value)` |
| `ArrayEditing.WithoutMatches` | ts/object-functions.ts:42-48 | the removeAll filter keeps exactly the elements the callback keeps: every result element is kept and from the input, and every kept input element is in the result |
| `ArrayEditing.WithoutMatchesAppend` | ts/object-functions.ts:42-48 | the filter distributes over concatenation, so kept elements keep their relative order |
| `ArrayEditing.WithoutMatchesCounts` | ts/object-functions.ts:46-47 | with `===`, the multiset of the result is the input's with every copy of value removed and every other element kept as often |
| `ArrayEditing.FindIndex` | ts/object-functions.ts:17-22 | `findIndex` returns -1 iff no element matches, else the first matching position |
| `ArrayEditing.WithoutFirstMatch` | ts/object-functions.ts:16-24 | START removes exactly the first match, and the rest stay in order; with no match the array is unchanged |
| `ArrayEditing.MatchIndexes` | ts/object-functions.ts:27-34 | `array.map` gives one entry per element, defined exactly at the matching elements and then holding their own index |
| `ArrayEditing.AfterRemoveFromEnd` | ts/object-functions.ts:27-39 | END removes the final element when it matches and otherwise changes nothing, even when an earlier element matches |
| `ArrayEditing.LastMatchIndex` | ts/object-functions.ts:27-34 | the last matching position, or -1 iff nothing matches |
| `ArrayEditing.WithoutLastMatch` | ts/object-functions.ts:27-38 | removing the last match (the intended END behaviour): exactly that element goes, the rest stay in order |
| `ArrayEditing.RemoveFromEndMissesEarlierMatch` | ts/object-functions.ts:35-38 | when an earlier element matches but the final one does not, END returns the array unchanged while the intended removal shortens it |
| `ArrayEditing.RemoveFromEndExample` | ts/object-functions.ts:27-38 | for [1, 2] and value 1, END keeps [1, 2]; the intended result is [2] |
| `ArrayEditing.RemoveFromEndAgreesOnFinalMatch` | ts/object-functions.ts:36-38 | when the final element matches, END agrees with removing the last match |
| `ArrayEditing.RemoveFromArray` | ts/object-functions.ts:8-51 | with the source's defaults (removeAll true, checkForDeepObjects false, direction START), so `RemoveFromArray(a, v, isEqual)` filters; removeAll: a fresh array with the matches filtered out, input unchanged; otherwise the input itself, edited by the START or END rule, is returned |
| `ArrayEditing.RemoveFromArrayAtIndex` | ts/object-functions.ts:53-56 | the same array is returned, spliced at index; for an in-range index exactly that element is gone |
| `ArrayEditing.InsertToArrayAtIndex` | ts/object-functions.ts:216-222 | the array is spliced at index; for 0 ≤ index ≤ length it becomes `a[..i] + [v] + a[i..]` |
| `ArrayEditing.RemoveAtIndexOutOfRange` | ts/object-functions.ts:54 | removing at an index past the end changes nothing; a negative index removes the element counted from the end, or the first one |
| `ArrayEditing.InsertThenRemove` | ts/object-functions.ts:216-222 | inserting at i and then removing at i restores the array |
| `ArrayEditing.RemoveThenInsert` | ts/object-functions.ts:53-56 | removing at i and reinserting the removed element at i restores the array |
| `ArrayEditing.Swapped` | ts/object-functions.ts:77-78 | exchanging positions i and j: same length, the two swapped, every other position unchanged |
| `ArrayEditing.SwappedPermutes` | ts/object-functions.ts:77-78 | an exchange preserves the multiset of elements |
| `ArrayEditing.ForwardMoveIsSwap` | ts/object-functions.ts:105-106 | `splice(i, 1)` then `splice(i + 1, 0, a[i])` exchanges a[i] and a[i+1] |
| `ArrayEditing.BackwardMoveIsSwap` | ts/object-functions.ts:112-113 | `splice(i, 1)` then `splice(i - 1, 0, a[i])` exchanges a[i] and a[i-1] |
| `ArrayEditing.MoveBackUndoesMove` | ts/object-functions.ts:100-115 | a move forward followed by the move back (or the reverse) restores the array |
| `ArrayEditing.SpliceToNeighbour` | ts/object-functions.ts:77-78 | the two splices of a possible move (also ts/object-functions.ts:83-84, 105-106, 112-113) exchange the element with its neighbour in the given direction |
| `ArrayEditing.MoveElementInArrayWithIndexInArrayToOtherIndex` | ts/object-functions.ts:91-118 | true iff the index is in range and has a neighbour in that direction, and then the two are exchanged; otherwise false and the array unchanged |
| `ArrayEditing.MoveElementInArrayOneIndex` | ts/object-functions.ts:63-89 | the same move at the first position holding the value; false and unchanged when the value is absent or at the boundary |
| `ArrayLookup.GetSubarray` | ts/object-functions.ts:224-234 | fails iff start < 0, end > length or start ≥ end; otherwise the contiguous elements from start through end (through the last when end is the length) |
| `ArrayLookup.GetSubarrayIsInfix` | ts/object-functions.ts:233 | a successful result is non-empty and the array is what precedes it, then it, then what follows |
| `ArrayLookup.GetSubarrayExamples` | ts/object-functions.ts:229-233 | ([1..5], 1, 3) gives [2, 3, 4]; ([1..5], 0, 5) gives the whole array; (0, 6) and (2, 2) fail |
| `ArrayLookup.GetNextEntryOfArrayCycleThrough` | ts/object-functions.ts:288-301 | fails with ValueNotFound iff the value is absent, else returns `a[(i + 1) mod n]` for its first index i |
| `ArrayLookup.GetPreviousEntryOfArrayCycleThrough` | ts/object-functions.ts:303-316 | fails with ValueNotFound iff the value is absent, else returns `a[(i - 1 + n) mod n]` for its first index i |
| `ArrayLookup.CyclicSteps` | ts/object-functions.ts:295-299 | the source's wrap-around step forward and back equals the step modulo n |
| `ArrayLookup.DistinctIndexOf` | ts/object-functions.ts:289 | without repeated elements, indexOf finds each element at its own position |
| `ArrayLookup.NextThenPreviousReturns` | ts/object-functions.ts:288-316 | without repeated elements, next then previous (and previous then next) returns the starting value |
| `ArrayLookup.CycleExamples` | ts/object-functions.ts:288-316 | next of 3 in [1, 2, 3] is 1, previous of 1 is 3, and a missing value or an empty array fails |
| `NaturalSort.ContainsDigit` | ts/object-functions.ts:277-279 | `rd.test(t)` holds exactly when t is not digit-free, and for every non-empty run of digits |
| `NaturalSort.RunLength` | ts/object-functions.ts:266 | the length of the maximal leading run of one kind: all of one kind, followed by the other kind or the end |
| `NaturalSort.Tokenize` | ts/object-functions.ts:270-271 | the tokens spell the input and each is a non-empty run of digits or of non-digits (alternation and uniqueness in the two rows below) |
| `NaturalSort.FirstToken` | ts/object-functions.ts:270 | the first token of a non-empty string is a run of its first code unit's kind |
| `NaturalSort.TokenizeSplits` | ts/object-functions.ts:270-271 | the tokens are non-empty, each all digits or no digits, the kinds alternate, and they concatenate to the input |
| `NaturalSort.RunSplitIsTokenize` | ts/object-functions.ts:266-271 | any cut into alternating runs is the tokenisation, so the tokens are the maximal runs |
| `NaturalSort.RunLengthOfRun` | ts/object-functions.ts:266 | a run followed by text of the other kind is exactly the first run |
| `NaturalSort.TokenizeRun` | ts/object-functions.ts:270 | a run followed by text of the other kind is the first token, and the rest tokenises on its own |
| `NaturalSort.TokenizeOne` | ts/object-functions.ts:270 | a single run is one token |
| `NaturalSort.TokenizeTwo` | ts/object-functions.ts:270 | two runs of different kinds are two tokens |
| `NaturalSort.Value` | ts/object-functions.ts:280 | `+t` of a digit run is its decimal value, below 10 to the power of its length |
| `NaturalSort.LexLess` | ts/object-functions.ts:282 | string `<` never holds between equal strings and puts a proper prefix first (irreflexive, total and transitive in the rows below) |
| `NaturalSort.ComparePart` | ts/object-functions.ts:277-283 | one round returns 0 exactly for two digit tokens of equal value or two identical digit-free tokens; a digit-free token sorts before a digit token; two digit-free tokens go by string `<` |
| `NaturalSort.CompareTokens` | ts/object-functions.ts:273-285 | the loop over the token lists ends in 0 exactly when the lists are equally long and every round gives 0 |
| `NaturalSort.Compare` | ts/object-functions.ts:262-286 | the comparator is 0 exactly when both strings have as many tokens and every pair compares 0 |
| `NaturalSort.SortingFunctionStringsWithNumbers` | ts/object-functions.ts:262-286 | the loop's result is `Compare(a, b)`, the token-wise comparison |
| `NaturalSort.LexLessIrreflexive` | ts/object-functions.ts:282 | no string is `<` itself |
| `NaturalSort.LexLessTotal` | ts/object-functions.ts:282 | of two different strings exactly one is `<` the other |
| `NaturalSort.LexLessTransitive` | ts/object-functions.ts:282 | string `<` is transitive |
| `NaturalSort.CompareTokensReflexive` | ts/object-functions.ts:273-285 | a token list compares 0 with itself |
| `NaturalSort.CompareReflexive` | ts/object-functions.ts:262-286 | compare(s, s) == 0 |
| `NaturalSort.ComparePartAntisymmetric` | ts/object-functions.ts:277-283 | one round with the tokens swapped gives the negated result |
| `NaturalSort.CompareTokensAntisymmetric` | ts/object-functions.ts:273-285 | comparing token lists the other way round negates the result |
| `NaturalSort.CompareAntisymmetric` | ts/object-functions.ts:262-286 | compare(a, b) == -compare(b, a) |
| `NaturalSort.ComparePartTransitive` | ts/object-functions.ts:277-283 | on single tokens "not after" is transitive, and the result is 0 only if both steps are 0 |
| `NaturalSort.CompareTokensTransitive` | ts/object-functions.ts:273-285 | on token lists "not after" is transitive |
| `NaturalSort.CompareTransitive` | ts/object-functions.ts:262-286 | compare(a, b) ≤ 0 and compare(b, c) ≤ 0 give compare(a, c) ≤ 0 |
| `NaturalSort.SkipEqualToken` | ts/object-functions.ts:273-284 | a first pair of tokens that compare equal is passed over |
| `NaturalSort.LeadingZerosIgnored` | ts/object-functions.ts:280 | leading zeros do not change the numeric value of a digit run |
| `NaturalSort.ZerosHaveNoValue` | ts/object-functions.ts:280 | a run of zeros has value 0 |
| `NaturalSort.CompareDigitStrings` | ts/object-functions.ts:277-280 | two all-digit strings compare by the difference of their values |
| `NaturalSort.CompareTokensPrefixFirst` | ts/object-functions.ts:273-285 | a token list sorts before every longer list that extends it |
| `NaturalSort.SameWordThenNumber` | ts/object-functions.ts:262-286 | a word followed by a number against the same word followed by another number gives the difference of the numbers' values |
| `NaturalSort.ShorterFirst` | ts/object-functions.ts:262-286 | a word and a number sort before the same word and number followed by further text |
| `NaturalSort.ZeroPaddedNumber` | ts/object-functions.ts:262-286 | zeros written before the number do not change the comparison |
| `NaturalSort.Item2BeforeItem10` | ts/object-functions.ts:262-286 | "item2" sorts before "item10" |
| `NaturalSort.Item10BeforeItem10b` | ts/object-functions.ts:262-286 | "item10" sorts before "item10b" |
| `NaturalSort.LeadingZerosExample` | ts/object-functions.ts:262-286 | "a01" and "a1" compare equal |

## Left out

- The local-storage getters (ts/object-functions.ts:236-260). They read the browser's global storage, which is external I/O.
- `parseJSON`, `isValidJSON`, `isJSON_Object` and `IsJsonString` (ts/object-functions.ts:120-181). They only wrap the exceptions of the host's JSON parser and serialiser and log errors. The JSON parser is not part of this model.
- `isValidType` and `isObjectType` (ts/object-functions.ts:183-189, 212-214). They are runtime `typeof` checks with nothing to model on typed values.
- `findDeeplyAndReturnPath` (ts/object-functions.ts:191-210). It depends on the host's property enumeration order and on object identity. It recurses into strings, whose entries are again strings, so it does not terminate on them.
- lodash's `isEqual` is the parameter `isEqual`. No property of it, not even symmetry, is assumed.
- `===` is Dafny's `==` on the element type. `NaN !== NaN`, `0 === -0` and the difference between object identity and structural equality are not modelled. In particular `moveElementInArrayOneIndex` reinserts `value` rather than the array's own element, so moving `0` found as `-0` leaves `0` in the array in the source, while `Swapped` keeps `-0`.
- Indices are integers. JavaScript numbers may be fractional or infinite, and `splice` truncates them. In `moveElementInArrayWithIndexInArrayToOtherIndex` a fractional index passes the range check and reads `undefined`. None of this is modelled.
- `NaturalSort.Value`: digit runs are unbounded naturals and their difference is exact. The source converts with unary `+` to a double, which loses precision for runs longer than about 15 digits.
- `NaturalSort.Ascii` only converts ASCII literals for the examples. Strings are otherwise arbitrary sequences of UTF-16 code units.
- The array sort that uses the comparator is not part of this model. Only the comparator and its ordering properties are.

## Findings

| source | as written | input that shows it | evidently intended | confidence | as-written member | corrected member |
|---|---|---|---|---|---|---|
| ts/object-functions.ts:27-38 | with direction END, `map` yields one entry per element, so the last entry is defined only when the final element matches; the branch removes the final element or nothing | `removeFromArray([1, 2], 1, false, false, ERemoveDirection.END)` leaves `[1, 2]` | remove the last element that matches, giving `[2]` | high, not executed | `ArrayEditing.RemoveFromEndMissesEarlierMatch` | `ArrayEditing.WithoutLastMatch` |

`ArrayEditing.RemoveFromArray` keeps the behaviour as written, through
`AfterRemoveFromEnd`. `WithoutLastMatch` is the corrected END rule. It is proved
to remove exactly the last match, and `RemoveFromEndAgreesOnFinalMatch` shows
that the two agree whenever the final element matches.
