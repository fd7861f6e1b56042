/** The pure lookups of ts/object-functions.ts: getSubarray and the two
    wrap-around neighbour lookups. Each throws in one named way, modelled
    as a Failure. */
module ArrayLookup {
  import opened Wrappers
  import opened JsArrays

  /** The two exceptions: "Invalid start or end index" and
      "Value in array not found". */
  datatype Error = InvalidStartOrEndIndex | ValueNotFound

  /** getSubarray: the elements from startIndex through endIndex, both
      inclusive, copied with `slice(startIndex, endIndex + 1)`. The check
      lets endIndex be the length, and `slice` then stops at the end. */
  function GetSubarray<T>(s: seq<T>, startIndex: int, endIndex: int): (r: Result<seq<T>, Error>)
    ensures r.Failure? <==> startIndex < 0 || endIndex > |s| || startIndex >= endIndex
    ensures r.Failure? ==> r.error == InvalidStartOrEndIndex
    ensures r.Success? ==>
      |r.value| == (if endIndex == |s| then endIndex - startIndex else endIndex - startIndex + 1)
    ensures r.Success? ==> forall k :: 0 <= k < |r.value| ==> r.value[k] == s[startIndex + k]
  {
    if startIndex < 0 || endIndex > |s| || startIndex >= endIndex then
      Failure(InvalidStartOrEndIndex)
    else
      Success(Sliced(s, startIndex, endIndex + 1))
  }

  /** A successful getSubarray is a non-empty contiguous piece of the array:
      the array is what precedes it, then it, then what follows it. */
  lemma GetSubarrayIsInfix<T>(s: seq<T>, startIndex: int, endIndex: int)
    requires GetSubarray(s, startIndex, endIndex).Success?
    ensures var sub := GetSubarray(s, startIndex, endIndex).value;
      1 <= |sub| && startIndex + |sub| <= |s|
      && s == s[..startIndex] + sub + s[startIndex + |sub|..]
  {
    var sub := GetSubarray(s, startIndex, endIndex).value;
    assert sub == s[startIndex..startIndex + |sub|];
    assert s == s[..startIndex] + s[startIndex..startIndex + |sub|] + s[startIndex + |sub|..];
  }

  /** getSubarray([1, 2, 3, 4, 5], 1, 3) is [2, 3, 4]; with endIndex equal to
      the length the whole tail is returned; startIndex == endIndex fails. */
  lemma GetSubarrayExamples()
    ensures GetSubarray([1, 2, 3, 4, 5], 1, 3) == Success([2, 3, 4])
    ensures GetSubarray([1, 2, 3, 4, 5], 0, 5) == Success([1, 2, 3, 4, 5])
    ensures GetSubarray([1, 2, 3, 4, 5], 0, 6) == Failure(InvalidStartOrEndIndex)
    ensures GetSubarray([1, 2, 3, 4, 5], 2, 2) == Failure(InvalidStartOrEndIndex)
  {
    var s := [1, 2, 3, 4, 5];
    assert Sliced(s, 1, 4) == s[1..4] == [2, 3, 4];
    assert Sliced(s, 0, 6) == s[0..5] == s;
  }

  /** getNextEntryOfArrayCycleThrough: the element after the first
      occurrence of value, the first element after the last one. */
  function GetNextEntryOfArrayCycleThrough<T(==)>(s: seq<T>, value: T): (r: Result<T, Error>)
    ensures r.Failure? <==> value !in s
    ensures r.Failure? ==> r.error == ValueNotFound
    ensures r.Success? ==> r.value == s[(IndexOf(s, value) + 1) % |s|]
  {
    var currentIndex := IndexOf(s, value);
    if currentIndex == -1 then Failure(ValueNotFound)
    else
      var nextIndex := if currentIndex + 1 > |s| - 1 then 0 else currentIndex + 1;
      CyclicSteps(currentIndex, |s|);
      Success(s[nextIndex])
  }

  /** getPreviousEntryOfArrayCycleThrough: the element before the first
      occurrence of value, the last element before the first one. */
  function GetPreviousEntryOfArrayCycleThrough<T(==)>(s: seq<T>, value: T): (r: Result<T, Error>)
    ensures r.Failure? <==> value !in s
    ensures r.Failure? ==> r.error == ValueNotFound
    ensures r.Success? ==> r.value == s[(IndexOf(s, value) - 1 + |s|) % |s|]
  {
    var currentIndex := IndexOf(s, value);
    if currentIndex == -1 then Failure(ValueNotFound)
    else
      var previous := if currentIndex - 1 < 0 then |s| - 1 else currentIndex - 1;
      CyclicSteps(currentIndex, |s|);
      Success(s[previous])
  }

  /** One step forward and one step back around n positions. */
  lemma CyclicSteps(i: int, n: int)
    requires 0 <= i < n
    ensures (i + 1) % n == if i + 1 == n then 0 else i + 1
    ensures (i - 1 + n) % n == if i == 0 then n - 1 else i - 1
  {
    if i + 1 == n {
      assert (i + 1) % n == n % n == 0;
    }
    if i != 0 {
      assert i - 1 + n == (i - 1) + 1 * n;
    }
  }

  /** No element occurs twice. */
  predicate Distinct<T(==)>(s: seq<T>) {
    forall i, j :: 0 <= i < j < |s| ==> s[i] != s[j]
  }

  /** In an array without repeated elements, stepping forward and then back
      (or back and then forward) returns to where one started. */
  lemma NextThenPreviousReturns<T>(s: seq<T>, value: T)
    requires Distinct(s) && value in s
    ensures GetPreviousEntryOfArrayCycleThrough(s, GetNextEntryOfArrayCycleThrough(s, value).value) == Success(value)
    ensures GetNextEntryOfArrayCycleThrough(s, GetPreviousEntryOfArrayCycleThrough(s, value).value) == Success(value)
  {
    var i, n := IndexOf(s, value), |s|;
    CyclicSteps(i, n);
    var j := if i + 1 == n then 0 else i + 1;
    DistinctIndexOf(s, j);
    CyclicSteps(j, n);
    var p := if i == 0 then n - 1 else i - 1;
    DistinctIndexOf(s, p);
    CyclicSteps(p, n);
  }

  /** In an array without repeated elements, indexOf finds each element
      at its own position. */
  lemma DistinctIndexOf<T>(s: seq<T>, i: int)
    requires Distinct(s) && 0 <= i < |s|
    ensures IndexOf(s, s[i]) == i
  {
  }

  /** getNextEntryOfArrayCycleThrough([1, 2, 3], 3) is 1 and
      getPreviousEntryOfArrayCycleThrough([1, 2, 3], 1) is 3; a missing
      value, in particular any value of the empty array, is not found. */
  lemma CycleExamples()
    ensures GetNextEntryOfArrayCycleThrough([1, 2, 3], 3) == Success(1)
    ensures GetPreviousEntryOfArrayCycleThrough([1, 2, 3], 1) == Success(3)
    ensures GetNextEntryOfArrayCycleThrough([1, 2, 3], 4) == Failure(ValueNotFound)
    ensures GetPreviousEntryOfArrayCycleThrough([], 4) == Failure(ValueNotFound)
  {
    assert IndexOf([1, 2, 3], 3) == 2;
    assert IndexOf([1, 2, 3], 1) == 0;
  }
}
