/** The in-place array editing helpers of ts/object-functions.ts:
    removeFromArray, removeFromArrayAtIndex, insertToArrayAtIndex and the
    two moveElement functions. Each one edits the caller's JsArray through
    `splice`, except the removeAll branch of removeFromArray, which builds a
    fresh array with `filter`.

    lodash's `isEqual` is not part of this model: it is the parameter
    `isEqual`, and `===` is Dafny's `==`. */
module ArrayEditing {
  import opened Wrappers
  import opened JsArrays

  datatype RemoveDirection = Start | End

  datatype RearrangeDirection = Forward | Backwards

  /*** Removing by value ***/

  /** The findIndex callback of the START branch: a deep match when
      checkForDeepObjects is set, identity otherwise. */
  predicate StartMatches<T(==)>(deep: bool, isEqual: (T, T) -> bool, value: T, x: T)
    ensures !deep ==> (StartMatches(deep, isEqual, value, x) <==> x == value)
  {
    if deep then isEqual(value, x) else x == value
  }

  /** The map callback of the END branch yields x's index when x is a deep
      match (if asked for) or identical to value. */
  predicate EndMatches<T(==)>(deep: bool, isEqual: (T, T) -> bool, value: T, x: T)
    ensures x == value ==> EndMatches(deep, isEqual, value, x)
    ensures StartMatches(deep, isEqual, value, x) ==> EndMatches(deep, isEqual, value, x)
    ensures !deep ==> (EndMatches(deep, isEqual, value, x) <==> StartMatches(deep, isEqual, value, x))
  {
    (deep && isEqual(value, x)) || x == value
  }

  /** The filter callback of the removeAll branch keeps x when this holds. */
  predicate Kept<T(==)>(deep: bool, isEqual: (T, T) -> bool, value: T, x: T)
    ensures !deep ==> (Kept(deep, isEqual, value, x) <==> !StartMatches(deep, isEqual, value, x))
    ensures deep ==> (Kept(deep, isEqual, value, x) <==> !isEqual(x, value))
  {
    if deep then !isEqual(x, value) else x != value
  }

  /** `array.filter(...)` of the removeAll branch: the elements that do not
      match, in their original order. */
  function WithoutMatches<T(==)>(s: seq<T>, deep: bool, isEqual: (T, T) -> bool, value: T): (r: seq<T>)
    ensures |r| <= |s|
    ensures forall x :: x in r ==> x in s && Kept(deep, isEqual, value, x)
    ensures forall x :: x in s && Kept(deep, isEqual, value, x) ==> x in r
  {
    if s == [] then []
    else
      var rest := WithoutMatches(s[1..], deep, isEqual, value);
      assert forall x :: x in s[1..] ==> x in s;
      if Kept(deep, isEqual, value, s[0]) then [s[0]] + rest else rest
  }

  /** `array.findIndex(...)` of the START branch: the first matching
      position, or -1. */
  function FindIndex<T(==)>(s: seq<T>, deep: bool, isEqual: (T, T) -> bool, value: T): (k: int)
    ensures -1 <= k < |s|
    ensures k == -1 <==> forall i :: 0 <= i < |s| ==> !StartMatches(deep, isEqual, value, s[i])
    ensures 0 <= k ==> StartMatches(deep, isEqual, value, s[k])
    ensures 0 <= k ==> forall j :: 0 <= j < k ==> !StartMatches(deep, isEqual, value, s[j])
  {
    if s == [] then -1
    else if StartMatches(deep, isEqual, value, s[0]) then 0
    else
      var k := FindIndex(s[1..], deep, isEqual, value);
      assert forall i :: 1 <= i < |s| ==> s[i] == s[1..][i - 1];
      if k == -1 then -1 else k + 1
  }

  /** What the START branch leaves in the array: exactly the first match
      removed, everything else in order; the array as it was when nothing
      matches. */
  function WithoutFirstMatch<T(==)>(s: seq<T>, deep: bool, isEqual: (T, T) -> bool, value: T): (r: seq<T>)
    ensures (forall i :: 0 <= i < |s| ==> !StartMatches(deep, isEqual, value, s[i])) ==> r == s
    ensures (exists i :: 0 <= i < |s| && StartMatches(deep, isEqual, value, s[i])) ==>
      exists k :: 0 <= k < |s| && StartMatches(deep, isEqual, value, s[k])
        && (forall j :: 0 <= j < k ==> !StartMatches(deep, isEqual, value, s[j]))
        && r == s[..k] + s[k + 1..]
  {
    var k := FindIndex(s, deep, isEqual, value);
    if k == -1 then s else s[..k] + s[k + 1..]
  }

  /** `array.map(...)` of the END branch: one entry per element, holding the
      element's index when it matches and `undefined` (None) otherwise. */
  function MatchIndexes<T(==)>(s: seq<T>, deep: bool, isEqual: (T, T) -> bool, value: T): (r: seq<Option<nat>>)
    ensures |r| == |s|
    ensures forall i :: 0 <= i < |s| ==> (r[i].Some? <==> EndMatches(deep, isEqual, value, s[i]))
    ensures forall i :: 0 <= i < |s| && r[i].Some? ==> r[i].value == i
  {
    seq(|s|, i requires 0 <= i < |s| => if EndMatches(deep, isEqual, value, s[i]) then Some(i) else None)
  }

  /** What the END branch leaves in the array. Since the map has one entry
      per element, its last entry is defined only when the final element
      matches: the branch removes that final element or nothing, even when
      an earlier element matches. */
  function AfterRemoveFromEnd<T(==)>(s: seq<T>, deep: bool, isEqual: (T, T) -> bool, value: T): (r: seq<T>)
    ensures |s| > 0 && EndMatches(deep, isEqual, value, s[|s| - 1]) ==> r == s[..|s| - 1]
    ensures !(|s| > 0 && EndMatches(deep, isEqual, value, s[|s| - 1])) ==> r == s
  {
    var indexes := MatchIndexes(s, deep, isEqual, value);
    if |indexes| == 0 then s
    else
      match indexes[|indexes| - 1]
      case None => s
      case Some(lastIndex) => Spliced(s, lastIndex, 1, [])
  }

  /** The last matching position, or -1: what the END branch's name
      promises to look for. */
  function LastMatchIndex<T(==)>(s: seq<T>, deep: bool, isEqual: (T, T) -> bool, value: T): (k: int)
    ensures -1 <= k < |s|
    ensures k == -1 <==> forall i :: 0 <= i < |s| ==> !EndMatches(deep, isEqual, value, s[i])
    ensures 0 <= k ==> EndMatches(deep, isEqual, value, s[k])
    ensures 0 <= k ==> forall j :: k < j < |s| ==> !EndMatches(deep, isEqual, value, s[j])
  {
    if s == [] then -1
    else if EndMatches(deep, isEqual, value, s[|s| - 1]) then |s| - 1
    else LastMatchIndex(s[..|s| - 1], deep, isEqual, value)
  }

  /** The END branch as evidently intended: exactly the last match removed,
      everything else in order; the array as it was when nothing matches. */
  function WithoutLastMatch<T(==)>(s: seq<T>, deep: bool, isEqual: (T, T) -> bool, value: T): (r: seq<T>)
    ensures (forall i :: 0 <= i < |s| ==> !EndMatches(deep, isEqual, value, s[i])) ==> r == s
    ensures (exists i :: 0 <= i < |s| && EndMatches(deep, isEqual, value, s[i])) ==>
      exists k :: 0 <= k < |s| && EndMatches(deep, isEqual, value, s[k])
        && (forall j :: k < j < |s| ==> !EndMatches(deep, isEqual, value, s[j]))
        && r == s[..k] + s[k + 1..]
  {
    var k := LastMatchIndex(s, deep, isEqual, value);
    if k == -1 then s else s[..k] + s[k + 1..]
  }

  /** The END branch as written leaves the array alone whenever the final
      element does not match, although an earlier element does and the
      intended removal would shorten the array. */
  lemma RemoveFromEndMissesEarlierMatch<T>(s: seq<T>, deep: bool, isEqual: (T, T) -> bool, value: T, i: nat)
    requires i < |s| && EndMatches(deep, isEqual, value, s[i])
    requires !EndMatches(deep, isEqual, value, s[|s| - 1])
    ensures AfterRemoveFromEnd(s, deep, isEqual, value) == s
    ensures |WithoutLastMatch(s, deep, isEqual, value)| == |s| - 1
  {
  }

  /** removeFromArray([1, 2], 1, false, false, END) keeps [1, 2]. */
  lemma RemoveFromEndExample(isEqual: (int, int) -> bool)
    ensures AfterRemoveFromEnd([1, 2], false, isEqual, 1) == [1, 2]
    ensures WithoutLastMatch([1, 2], false, isEqual, 1) == [2]
  {
    assert LastMatchIndex([1, 2], false, isEqual, 1) == 0;
  }

  /** When the final element matches, the END branch does what is intended. */
  lemma RemoveFromEndAgreesOnFinalMatch<T>(s: seq<T>, deep: bool, isEqual: (T, T) -> bool, value: T)
    requires |s| > 0 && EndMatches(deep, isEqual, value, s[|s| - 1])
    ensures AfterRemoveFromEnd(s, deep, isEqual, value) == WithoutLastMatch(s, deep, isEqual, value)
  {
  }

  /** removeFromArray. With removeAll it returns a fresh filtered array and
      leaves the input alone; otherwise it removes at most one element from
      the input itself and returns that same array. The defaults are those
      of the source: remove all, compare with `===`, from the start. */
  method RemoveFromArray<T(==)>(a: JsArray<T>, value: T, isEqual: (T, T) -> bool,
                                removeAll: bool := true, checkForDeepObjects: bool := false,
                                removeDirection: RemoveDirection := Start)
    returns (r: JsArray<T>)
    modifies a
    ensures removeAll ==> fresh(r) && a.elems == old(a.elems)
    ensures removeAll ==> r.elems == WithoutMatches(old(a.elems), checkForDeepObjects, isEqual, value)
    ensures !removeAll ==> r == a
    ensures !removeAll && removeDirection == Start ==>
      a.elems == WithoutFirstMatch(old(a.elems), checkForDeepObjects, isEqual, value)
    ensures !removeAll && removeDirection == End ==>
      a.elems == AfterRemoveFromEnd(old(a.elems), checkForDeepObjects, isEqual, value)
  {
    if !removeAll {
      if removeDirection == Start {
        var index := FindIndex(a.elems, checkForDeepObjects, isEqual, value);
        if index == -1 {
          return a;
        }
        var removed := a.Splice(index, 1, []);
        SplicedRemoveOne(old(a.elems), index);
      } else {
        var indexes := MatchIndexes(a.elems, checkForDeepObjects, isEqual, value);
        if |indexes| == 0 {
          return a;
        }
        var lastIndex := indexes[|indexes| - 1];
        if lastIndex.None? {
          return a;
        }
        var removed := a.Splice(lastIndex.value, 1, []);
        return a;
      }
      r := a;
    } else {
      r := new JsArray(WithoutMatches(a.elems, checkForDeepObjects, isEqual, value));
    }
  }

  /** Filtering distributes over concatenation: the kept elements stay in
      their original relative order. */
  lemma {:induction false} WithoutMatchesAppend<T>(s: seq<T>, t: seq<T>, deep: bool, isEqual: (T, T) -> bool, value: T)
    ensures WithoutMatches(s + t, deep, isEqual, value)
         == WithoutMatches(s, deep, isEqual, value) + WithoutMatches(t, deep, isEqual, value)
  {
    if s == [] {
      assert s + t == t;
    } else {
      assert (s + t)[1..] == s[1..] + t;
      WithoutMatchesAppend(s[1..], t, deep, isEqual, value);
    }
  }

  /** With identity comparison the removeAll branch drops every copy of
      value and keeps every other element as often as it occurred. */
  lemma {:induction false} WithoutMatchesCounts<T>(s: seq<T>, isEqual: (T, T) -> bool, value: T)
    ensures multiset(WithoutMatches(s, false, isEqual, value)) == multiset(s)[value := 0]
  {
    if s != [] {
      WithoutMatchesCounts(s[1..], isEqual, value);
      assert s == [s[0]] + s[1..];
    }
  }

  /*** Removing and inserting at an index ***/

  /** removeFromArrayAtIndex: `splice(index, 1)` on the array, which is
      then returned. */
  method RemoveFromArrayAtIndex<T>(a: JsArray<T>, index: int) returns (r: JsArray<T>)
    modifies a
    ensures r == a
    ensures a.elems == Spliced(old(a.elems), index, 1, [])
    ensures 0 <= index < |old(a.elems)| ==> a.elems == old(a.elems)[..index] + old(a.elems)[index + 1..]
  {
    var removed := a.Splice(index, 1, []);
    r := a;
  }

  /** insertToArrayAtIndex: `splice(index, 0, value)` on the array. */
  method InsertToArrayAtIndex<T>(a: JsArray<T>, value: T, index: int)
    modifies a
    ensures a.elems == Spliced(old(a.elems), index, 0, [value])
    ensures 0 <= index <= |old(a.elems)| ==> a.elems == old(a.elems)[..index] + [value] + old(a.elems)[index..]
  {
    var removed := a.Splice(index, 0, [value]);
  }

  /** Removing at an index past the end removes nothing; a negative index
      counts back from the end, and one before the start removes the first
      element. */
  lemma RemoveAtIndexOutOfRange<T>(s: seq<T>, index: int)
    ensures |s| <= index ==> Spliced(s, index, 1, []) == s
    ensures index < 0 && 0 <= |s| + index ==>
      Spliced(s, index, 1, []) == s[..|s| + index] + s[|s| + index + 1..]
    ensures |s| + index < 0 && s != [] ==> Spliced(s, index, 1, []) == s[1..]
  {
  }

  /** Inserting at an index and then removing at the same index restores
      the array. */
  lemma InsertThenRemove<T>(s: seq<T>, index: int, value: T)
    requires 0 <= index <= |s|
    ensures Spliced(Spliced(s, index, 0, [value]), index, 1, []) == s
  {
    var t := Spliced(s, index, 0, [value]);
    SplicedInsertOne(s, index, value);
    SplicedRemoveOne(t, index);
    assert t[..index] == s[..index];
    assert t[index + 1..] == s[index..];
  }

  /** Removing at an index and then inserting the removed element there
      restores the array. */
  lemma RemoveThenInsert<T>(s: seq<T>, index: int)
    requires 0 <= index < |s|
    ensures Spliced(Spliced(s, index, 1, []), index, 0, [s[index]]) == s
  {
    var t := Spliced(s, index, 1, []);
    SplicedRemoveOne(s, index);
    SplicedInsertOne(t, index, s[index]);
    assert t[..index] == s[..index];
    assert t[index..] == s[index + 1..];
    assert s == s[..index] + [s[index]] + s[index + 1..];
  }

  /*** Moving by one position ***/

  /** The position the element moves to. */
  function Neighbour(i: int, direction: RearrangeDirection): int {
    match direction
    case Forward => i + 1
    case Backwards => i - 1
  }

  /** The array with the elements at i and j exchanged. */
  function Swapped<T>(s: seq<T>, i: nat, j: nat): (r: seq<T>)
    requires i < |s| && j < |s|
    ensures |r| == |s| && r[i] == s[j] && r[j] == s[i]
    ensures forall k :: 0 <= k < |s| && k != i && k != j ==> r[k] == s[k]
  {
    s[i := s[j]][j := s[i]]
  }

  /** An exchange keeps every element, as often as it occurred. */
  lemma SwappedPermutes<T>(s: seq<T>, i: nat, j: nat)
    requires i < |s| && j < |s|
    ensures multiset(Swapped(s, i, j)) == multiset(s)
  {
    var t := s[i := s[j]];
    assert multiset(t) == multiset(s) - multiset{s[i]} + multiset{s[j]};
    assert multiset(t[j := s[i]]) == multiset(t) - multiset{t[j]} + multiset{s[i]};
  }

  /** Taking the element at i out and putting it back one place later is
      an exchange with its successor. */
  lemma ForwardMoveIsSwap<T>(s: seq<T>, i: nat)
    requires i + 1 < |s|
    ensures Spliced(Spliced(s, i, 1, []), i + 1, 0, [s[i]]) == Swapped(s, i, i + 1)
  {
    var t := s[..i] + s[i + 1..];
    SplicedRemoveOne(s, i);
    SplicedInsertOne(t, i + 1, s[i]);
    assert t[..i + 1] == s[..i] + [s[i + 1]];
    assert t[i + 1..] == s[i + 2..];
    var u := s[..i] + [s[i + 1], s[i]] + s[i + 2..];
    assert Spliced(t, i + 1, 0, [s[i]]) == u;
    assert u == Swapped(s, i, i + 1);
  }

  /** Taking the element at i out and putting it back one place earlier is
      an exchange with its predecessor. */
  lemma BackwardMoveIsSwap<T>(s: seq<T>, i: nat)
    requires 0 < i < |s|
    ensures Spliced(Spliced(s, i, 1, []), i - 1, 0, [s[i]]) == Swapped(s, i, i - 1)
  {
    var t := s[..i] + s[i + 1..];
    SplicedRemoveOne(s, i);
    SplicedInsertOne(t, i - 1, s[i]);
    assert t[..i - 1] == s[..i - 1];
    assert t[i - 1..] == [s[i - 1]] + s[i + 1..];
    var u := s[..i - 1] + [s[i], s[i - 1]] + s[i + 1..];
    assert Spliced(t, i - 1, 0, [s[i]]) == u;
    assert u == Swapped(s, i, i - 1);
  }

  /** Moving forward from i and then backward from i + 1 restores the
      array, and so does the reverse pair of moves. */
  lemma MoveBackUndoesMove<T>(s: seq<T>, i: nat, direction: RearrangeDirection)
    requires i < |s| && 0 <= Neighbour(i, direction) < |s|
    ensures var j: nat := Neighbour(i, direction);
      Swapped(Swapped(s, i, j), j, i) == s
  {
    var j: nat := Neighbour(i, direction);
    var r := Swapped(Swapped(s, i, j), j, i);
    forall k | 0 <= k < |s| ensures r[k] == s[k] {
    }
  }

  /** The two splices both move functions make once the move is possible:
      `splice(index, 1)` takes the element out and `splice(target, 0,
      element)` puts it back next to where it was. */
  method SpliceToNeighbour<T>(a: JsArray<T>, index: nat, direction: RearrangeDirection, element: T)
    requires index < |a.elems| && 0 <= Neighbour(index, direction) < |a.elems|
    requires a.elems[index] == element
    modifies a
    ensures a.elems == Swapped(old(a.elems), index, Neighbour(index, direction))
  {
    ghost var s := a.elems;
    var removed := a.Splice(index, 1, []);
    removed := a.Splice(Neighbour(index, direction), 0, [element]);
    match direction {
      case Forward => ForwardMoveIsSwap(s, index);
      case Backwards => BackwardMoveIsSwap(s, index);
    }
  }

  /** moveElementInArrayWithIndexInArrayToOtherIndex: exchanges the element
      at index with its neighbour in the given direction and answers true;
      answers false and changes nothing when index is out of range or the
      element already sits at that end. */
  method MoveElementInArrayWithIndexInArrayToOtherIndex<T>(a: JsArray<T>, index: int, direction: RearrangeDirection)
    returns (moved: bool)
    modifies a
    ensures moved <==> 0 <= index < |old(a.elems)| && 0 <= Neighbour(index, direction) < |old(a.elems)|
    ensures moved ==> a.elems == Swapped(old(a.elems), index, Neighbour(index, direction))
    ensures !moved ==> a.elems == old(a.elems)
  {
    if index < 0 || index >= |a.elems| {
      return false;
    }
    if direction == Forward && index != |a.elems| - 1 {
      var element := a.elems[index];
      SpliceToNeighbour(a, index, Forward, element);
      return true;
    }
    if direction == Backwards && index != 0 {
      var element := a.elems[index];
      SpliceToNeighbour(a, index, Backwards, element);
      return true;
    }
    return false;
  }

  /** moveElementInArrayOneIndex: the same move, applied at the first
      position holding value; false when value is absent. */
  method MoveElementInArrayOneIndex<T(==)>(a: JsArray<T>, value: T, direction: RearrangeDirection)
    returns (moved: bool)
    modifies a
    ensures var i := IndexOf(old(a.elems), value);
      moved <==> i != -1 && 0 <= Neighbour(i, direction) < |old(a.elems)|
    ensures var i := IndexOf(old(a.elems), value);
      moved ==> a.elems == Swapped(old(a.elems), i, Neighbour(i, direction))
    ensures !moved ==> a.elems == old(a.elems)
  {
    var index := IndexOf(a.elems, value);
    if index == -1 {
      return false;
    }
    if direction == Forward && index != |a.elems| - 1 {
      SpliceToNeighbour(a, index, Forward, value);
      return true;
    }
    if direction == Backwards && index != 0 {
      SpliceToNeighbour(a, index, Backwards, value);
      return true;
    }
    return false;
  }
}
