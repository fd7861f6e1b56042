/** The parts of the JavaScript Array built-ins that the utility functions
    rely on: an array object whose length changes as `splice` edits it in
    place, and the index normalisation that `splice` and `slice` share. */
module JsArrays {

  /** How `splice` and `slice` turn a caller's index into a position:
      a negative index counts back from the end, and the position is
      clamped into [0, len]. */
  function ClampIndex(i: int, len: nat): (k: nat)
    ensures k <= len
    ensures 0 <= i <= len ==> k == i
    ensures len < i ==> k == len
    ensures i < 0 && 0 <= len + i ==> k == len + i
    ensures len + i < 0 ==> k == 0
  {
    if i < 0 then (if len + i < 0 then 0 else len + i)
    else if i < len then i else len
  }

  /** The number of elements `splice(start, deleteCount, ...)` removes. */
  function DeleteCount(start: nat, deleteCount: int, len: nat): (d: nat)
    requires start <= len
    ensures start + d <= len
    ensures 0 <= deleteCount && start + deleteCount <= len ==> d == deleteCount
    ensures deleteCount < 0 ==> d == 0
    ensures len < start + deleteCount ==> d == len - start
  {
    if deleteCount < 0 then 0
    else if deleteCount < len - start then deleteCount
    else len - start
  }

  /** The contents of an array after `splice(start, deleteCount, ...items)`. */
  function Spliced<T>(s: seq<T>, start: int, deleteCount: int, items: seq<T>): (r: seq<T>)
    ensures |r| == |s| - DeleteCount(ClampIndex(start, |s|), deleteCount, |s|) + |items|
  {
    var k := ClampIndex(start, |s|);
    s[..k] + items + s[k + DeleteCount(k, deleteCount, |s|)..]
  }

  /** The elements `splice(start, deleteCount, ...)` returns: the removed ones. */
  function SpliceRemoved<T>(s: seq<T>, start: int, deleteCount: int): (r: seq<T>)
    ensures |r| <= |s|
    ensures multiset(r) <= multiset(s)
    ensures var k := ClampIndex(start, |s|);
      k + |r| <= |s| && s == Spliced(s, start, deleteCount, [])[..k] + r + Spliced(s, start, deleteCount, [])[k..]
  {
    var k := ClampIndex(start, |s|);
    var d := DeleteCount(k, deleteCount, |s|);
    assert s == s[..k] + s[k..k + d] + s[k + d..];
    s[k..k + d]
  }

  /** The copy `slice(start, end)` returns. */
  function Sliced<T>(s: seq<T>, start: int, end: int): (r: seq<T>)
    ensures var k, e := ClampIndex(start, |s|), ClampIndex(end, |s|);
      |r| == (if k <= e then e - k else 0)
      && forall j :: 0 <= j < |r| ==> r[j] == s[k + j]
  {
    var k, e := ClampIndex(start, |s|), ClampIndex(end, |s|);
    if k <= e then s[k..e] else []
  }

  /** `indexOf`: the first position holding `value` (compared with `===`),
      or -1 when there is none. */
  function IndexOf<T(==)>(s: seq<T>, value: T): (k: int)
    ensures -1 <= k < |s|
    ensures k == -1 <==> value !in s
    ensures 0 <= k ==> s[k] == value && forall j :: 0 <= j < k ==> s[j] != value
  {
    if s == [] then -1
    else if s[0] == value then 0
    else
      var k := IndexOf(s[1..], value);
      if k == -1 then -1 else k + 1
  }

  /** A JavaScript array: an object whose elements, and so whose length,
      change in place. */
  class JsArray<T> {
    var elems: seq<T>

    constructor (s: seq<T>)
      ensures elems == s
    {
      elems := s;
    }

    /** `splice(start, deleteCount, ...items)`: removes and inserts in place
        and returns the removed elements. */
    method Splice(start: int, deleteCount: int, items: seq<T>) returns (removed: seq<T>)
      modifies this
      ensures elems == Spliced(old(elems), start, deleteCount, items)
      ensures removed == SpliceRemoved(old(elems), start, deleteCount)
    {
      var k := ClampIndex(start, |elems|);
      var d := DeleteCount(k, deleteCount, |elems|);
      removed := elems[k..k + d];
      elems := elems[..k] + items + elems[k + d..];
    }
  }

  /** Removing one element at a position inside the array closes the gap. */
  lemma SplicedRemoveOne<T>(s: seq<T>, i: int)
    requires 0 <= i < |s|
    ensures Spliced(s, i, 1, []) == s[..i] + s[i + 1..]
  {
  }

  /** Inserting at a position inside the array or at its end. */
  lemma SplicedInsertOne<T>(s: seq<T>, i: int, v: T)
    requires 0 <= i <= |s|
    ensures Spliced(s, i, 0, [v]) == s[..i] + [v] + s[i..]
  {
  }
}
