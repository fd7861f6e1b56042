/** sortingFunctionStringsWithNumbers of ts/object-functions.ts: a
    comparator that splits both strings into maximal runs of digits and of
    non-digits and compares the runs pairwise, digit runs by their numeric
    value, so that "item2" sorts before "item10". */
module NaturalSort {

  /** JavaScript strings are sequences of UTF-16 code units. */
  newtype CodeUnit = c: int | 0 <= c < 0x1_0000

  type JsString = seq<CodeUnit>

  /** `\d` in a regular expression without the `u` flag: '0' to '9'. */
  predicate IsDigit(c: CodeUnit) {
    0x30 <= c <= 0x39
  }

  predicate AllDigits(t: JsString) {
    forall i :: 0 <= i < |t| ==> IsDigit(t[i])
  }

  predicate NoDigits(t: JsString) {
    forall i :: 0 <= i < |t| ==> !IsDigit(t[i])
  }

  /** `/\d+/.test(t)`: t holds at least one digit. */
  predicate ContainsDigit(t: JsString)
    ensures ContainsDigit(t) <==> !NoDigits(t)
    ensures |t| > 0 && AllDigits(t) ==> ContainsDigit(t)
  {
    assert |t| > 0 && AllDigits(t) ==> IsDigit(t[0]);
    exists i :: 0 <= i < |t| && IsDigit(t[i])
  }

  /*** Tokenising: `String(s).match(/(\d+)|(\D+)/g) || []` ***/

  /** The length of the maximal run of s's first class (digit or not). */
  function RunLength(s: JsString): (n: nat)
    requires |s| > 0
    ensures 1 <= n <= |s|
    ensures forall i :: 0 <= i < n ==> IsDigit(s[i]) == IsDigit(s[0])
    ensures n < |s| ==> IsDigit(s[n]) != IsDigit(s[0])
  {
    if |s| == 1 || IsDigit(s[1]) != IsDigit(s[0]) then 1
    else 1 + RunLength(s[1..])
  }

  /** The maximal runs of s, left to right; none for the empty string. */
  function Tokenize(s: JsString): (r: seq<JsString>)
    ensures Concat(r) == s
    ensures forall i :: 0 <= i < |r| ==> IsRun(r[i])
    decreases |s|
  {
    if s == [] then []
    else
      var n := RunLength(s);
      LeadingRun(s);
      ConcatCons(s[..n], Tokenize(s[n..]));
      assert s[..n] + s[n..] == s;
      [s[..n]] + Tokenize(s[n..])
  }

  function Concat(ts: seq<JsString>): JsString {
    if ts == [] then [] else ts[0] + Concat(ts[1..])
  }

  lemma ConcatCons(t: JsString, ts: seq<JsString>)
    ensures Concat([t] + ts) == t + Concat(ts)
  {
    assert ([t] + ts)[1..] == ts;
  }

  /** A token: a non-empty run of digits or of non-digits. */
  predicate IsRun(t: JsString) {
    |t| > 0 && (AllDigits(t) || NoDigits(t))
  }

  /** ts cuts s into runs whose kinds alternate. */
  predicate IsRunSplit(ts: seq<JsString>, s: JsString) {
    Concat(ts) == s
    && (forall i :: 0 <= i < |ts| ==> IsRun(ts[i]))
    && (forall i :: 0 <= i < |ts| - 1 ==> AllDigits(ts[i]) != AllDigits(ts[i + 1]))
  }

  /** The maximal leading run is a run of the first code unit's kind. */
  lemma LeadingRun(s: JsString)
    requires s != []
    ensures IsRun(s[..RunLength(s)]) && AllDigits(s[..RunLength(s)]) == IsDigit(s[0])
  {
    var t := s[..RunLength(s)];
    assert forall i :: 0 <= i < |t| ==> t[i] == s[i];
    if IsDigit(s[0]) {
      assert AllDigits(t);
    } else {
      assert NoDigits(t) && !IsDigit(t[0]);
    }
  }

  /** The first token of a non-empty string is a run of the first code
      unit's kind. */
  lemma FirstToken(s: JsString)
    requires s != []
    ensures Tokenize(s) != [] && Tokenize(s)[0] == s[..RunLength(s)]
    ensures IsRun(Tokenize(s)[0]) && AllDigits(Tokenize(s)[0]) == IsDigit(s[0])
  {
    LeadingRun(s);
  }

  /** The tokens are non-empty runs of one kind, the kinds alternate, and
      together they spell the input. */
  lemma {:induction false} TokenizeSplits(s: JsString)
    ensures IsRunSplit(Tokenize(s), s)
    decreases |s|
  {
    if s != [] {
      var n := RunLength(s);
      var ts, rest := Tokenize(s), Tokenize(s[n..]);
      FirstToken(s);
      TokenizeSplits(s[n..]);
      assert ts == [s[..n]] + rest;
      assert Concat(ts) == s by {
        assert ts[1..] == rest;
        assert s[..n] + s[n..] == s;
      }
      forall i | 1 <= i < |ts|
        ensures IsRun(ts[i])
      {
        assert ts[i] == rest[i - 1];
      }
      forall i | 0 <= i < |ts| - 1
        ensures AllDigits(ts[i]) != AllDigits(ts[i + 1])
      {
        if i == 0 {
          FirstToken(s[n..]);
          assert s[n..][0] == s[n];
        } else {
          assert ts[i] == rest[i - 1] && ts[i + 1] == rest[i];
        }
      }
    }
  }

  /** The run split is unique: any cut of s into alternating runs is the
      one Tokenize makes. */
  lemma {:induction false} RunSplitIsTokenize(ts: seq<JsString>, s: JsString)
    requires IsRunSplit(ts, s)
    ensures ts == Tokenize(s)
    decreases |ts|
  {
    if ts != [] {
      var t := ts[0];
      assert s == t + Concat(ts[1..]);
      assert s[..|t|] == t;
      var n := RunLength(s);
      if |ts| > 1 {
        var u := ts[1];
        assert Concat(ts[1..]) == u + Concat(ts[2..]);
        assert s[|t|] == u[0];
        assert AllDigits(t) != AllDigits(u);
        assert IsDigit(t[0]) != IsDigit(u[0]);
      }
      assert forall i :: 0 <= i < |t| ==> s[i] == t[i];
      assert n == |t|;
      assert s[n..] == Concat(ts[1..]);
      assert IsRunSplit(ts[1..], s[n..]) by {
        forall i | 0 <= i < |ts| - 2
          ensures AllDigits(ts[1..][i]) != AllDigits(ts[1..][i + 1])
        {
          assert ts[1..][i] == ts[i + 1];
        }
      }
      RunSplitIsTokenize(ts[1..], s[n..]);
    } else {
      assert s == [];
    }
  }

  /*** Comparing tokens ***/

  function DigitValue(c: CodeUnit): nat {
    if IsDigit(c) then (c - 0x30) as nat else 0
  }

  function Pow10(n: nat): (p: nat)
    ensures p >= 1
  {
    if n == 0 then 1 else 10 * Pow10(n - 1)
  }

  /** `+t` for a run of digits: its decimal value, which has no more
      digits than t. */
  function Value(t: JsString): (v: nat)
    ensures v < Pow10(|t|)
    decreases |t|
  {
    if t == [] then 0 else 10 * Value(t[..|t| - 1]) + DigitValue(t[|t| - 1])
  }

  /** `x < y` on strings: code unit by code unit, a proper prefix first. */
  predicate LexLess(x: JsString, y: JsString)
    ensures LexLess(x, y) ==> x != y
    ensures |x| < |y| && x == y[..|x|] ==> LexLess(x, y)
  {
    assert 0 < |x| < |y| && x == y[..|x|] ==> x[1..] == y[1..][..|x| - 1];
    if x == [] then y != []
    else if y == [] then false
    else x[0] < y[0] || (x[0] == y[0] && LexLess(x[1..], y[1..]))
  }

  /** One round of the comparator's loop: non-zero when it returns,
      zero when it moves on to the next pair. */
  function ComparePart(x: JsString, y: JsString): (r: int)
    ensures r == 0 <==> (ContainsDigit(x) == ContainsDigit(y)
      && if ContainsDigit(x) then Value(x) == Value(y) else x == y)
    ensures ContainsDigit(x) != ContainsDigit(y) ==> (r < 0 <==> ContainsDigit(y))
    ensures !ContainsDigit(x) && !ContainsDigit(y) ==> (r < 0 <==> LexLess(x, y))
  {
    if ContainsDigit(x) || ContainsDigit(y) then
      if !ContainsDigit(x) then -1
      else if !ContainsDigit(y) then 1
      else Value(x) - Value(y)
    else if x != y then (if LexLess(x, y) then -1 else 1)
    else 0
  }

  /** The comparator on the two token lists. */
  function CompareTokens(xs: seq<JsString>, ys: seq<JsString>): (r: int)
    ensures r == 0 <==> |xs| == |ys| && forall i :: 0 <= i < |xs| ==> ComparePart(xs[i], ys[i]) == 0
    decreases |xs|
  {
    if |xs| == 0 || |ys| == 0 then |xs| - |ys|
    else
      var c := ComparePart(xs[0], ys[0]);
      assert forall i :: 1 <= i < |xs| && i < |ys| ==> xs[1..][i - 1] == xs[i] && ys[1..][i - 1] == ys[i];
      if c != 0 then c else CompareTokens(xs[1..], ys[1..])
  }

  /** What sortingFunctionStringsWithNumbers(a, b) returns. */
  function Compare(a: JsString, b: JsString): (r: int)
    ensures r == 0 <==> var ta, tb := Tokenize(a), Tokenize(b);
      |ta| == |tb| && forall i :: 0 <= i < |ta| ==> ComparePart(ta[i], tb[i]) == 0
  {
    CompareTokens(Tokenize(a), Tokenize(b))
  }

  /** sortingFunctionStringsWithNumbers: the source's loop, shifting one
      token off each list per round. */
  method SortingFunctionStringsWithNumbers(a: JsString, b: JsString) returns (r: int)
    ensures r == Compare(a, b)
  {
    var aParts := Tokenize(a);
    var bParts := Tokenize(b);
    while |aParts| > 0 && |bParts| > 0
      invariant CompareTokens(aParts, bParts) == Compare(a, b)
      decreases |aParts|
    {
      var aPart := aParts[0];
      var bPart := bParts[0];
      ghost var xs, ys := aParts, bParts;
      aParts, bParts := aParts[1..], bParts[1..];
      if ContainsDigit(aPart) || ContainsDigit(bPart) {
        if !ContainsDigit(aPart) {
          return -1;
        }
        if !ContainsDigit(bPart) {
          return 1;
        }
        if Value(aPart) != Value(bPart) {
          return Value(aPart) - Value(bPart);
        }
      } else {
        if aPart != bPart {
          return if LexLess(aPart, bPart) then -1 else 1;
        }
      }
      assert ComparePart(aPart, bPart) == 0;
      assert CompareTokens(xs, ys) == CompareTokens(aParts, bParts);
    }
    return |aParts| - |bParts|;
  }

  /*** The string order ***/

  lemma {:induction false} LexLessIrreflexive(x: JsString)
    ensures !LexLess(x, x)
    decreases |x|
  {
    if x != [] {
      LexLessIrreflexive(x[1..]);
    }
  }

  /** Of two different strings exactly one is less than the other. */
  lemma {:induction false} LexLessTotal(x: JsString, y: JsString)
    requires x != y
    ensures LexLess(x, y) != LexLess(y, x)
    decreases |x|
  {
    if x != [] && y != [] && x[0] == y[0] {
      assert x == [x[0]] + x[1..] && y == [y[0]] + y[1..];
      LexLessTotal(x[1..], y[1..]);
    }
  }

  lemma {:induction false} LexLessTransitive(x: JsString, y: JsString, z: JsString)
    requires LexLess(x, y) && LexLess(y, z)
    ensures LexLess(x, z)
    decreases |x|
  {
    if x != [] && x[0] == y[0] && y[0] == z[0] {
      LexLessTransitive(x[1..], y[1..], z[1..]);
    }
  }

  /*** Properties of the comparator ***/

  lemma {:induction false} CompareTokensReflexive(xs: seq<JsString>)
    ensures CompareTokens(xs, xs) == 0
    decreases |xs|
  {
    if xs != [] {
      CompareTokensReflexive(xs[1..]);
    }
  }

  /** Every string compares equal to itself. */
  lemma CompareReflexive(s: JsString)
    ensures Compare(s, s) == 0
  {
    CompareTokensReflexive(Tokenize(s));
  }

  lemma ComparePartAntisymmetric(x: JsString, y: JsString)
    ensures ComparePart(x, y) == -ComparePart(y, x)
  {
    if x != y {
      LexLessTotal(x, y);
    }
  }

  lemma {:induction false} CompareTokensAntisymmetric(xs: seq<JsString>, ys: seq<JsString>)
    ensures CompareTokens(xs, ys) == -CompareTokens(ys, xs)
    decreases |xs|
  {
    if |xs| > 0 && |ys| > 0 {
      ComparePartAntisymmetric(xs[0], ys[0]);
      CompareTokensAntisymmetric(xs[1..], ys[1..]);
    }
  }

  /** Swapping the arguments negates the result, so the two orders agree. */
  lemma CompareAntisymmetric(a: JsString, b: JsString)
    ensures Compare(a, b) == -Compare(b, a)
  {
    CompareTokensAntisymmetric(Tokenize(a), Tokenize(b));
  }

  /** On single tokens the comparator is a total preorder: non-digit tokens
      in string order, then digit tokens by value. */
  lemma ComparePartTransitive(x: JsString, y: JsString, z: JsString)
    requires ComparePart(x, y) <= 0 && ComparePart(y, z) <= 0
    ensures ComparePart(x, z) <= 0
    ensures ComparePart(x, z) == 0 ==> ComparePart(x, y) == 0 && ComparePart(y, z) == 0
  {
    if !ContainsDigit(x) && !ContainsDigit(y) && !ContainsDigit(z) {
      if x != y && y != z {
        LexLessTotal(x, y);
        LexLessTotal(y, z);
        LexLessTransitive(x, y, z);
        LexLessIrreflexive(x);
      }
    }
  }

  lemma {:induction false} CompareTokensTransitive(xs: seq<JsString>, ys: seq<JsString>, zs: seq<JsString>)
    requires CompareTokens(xs, ys) <= 0 && CompareTokens(ys, zs) <= 0
    ensures CompareTokens(xs, zs) <= 0
    decreases |xs|
  {
    if |xs| > 0 && |ys| > 0 && |zs| > 0 {
      ComparePartTransitive(xs[0], ys[0], zs[0]);
      if ComparePart(xs[0], zs[0]) == 0 {
        CompareTokensTransitive(xs[1..], ys[1..], zs[1..]);
      }
    }
  }

  /** "Sorts no later than" is transitive; with antisymmetry the comparator
      is a consistent total preorder, as Array.prototype.sort expects. */
  lemma CompareTransitive(a: JsString, b: JsString, c: JsString)
    requires Compare(a, b) <= 0 && Compare(b, c) <= 0
    ensures Compare(a, c) <= 0
  {
    CompareTokensTransitive(Tokenize(a), Tokenize(b), Tokenize(c));
  }

  /** Leading zeros do not change a digit run's value. */
  lemma {:induction false} LeadingZerosIgnored(z: JsString, t: JsString)
    requires forall i :: 0 <= i < |z| ==> z[i] == 0x30
    ensures Value(z + t) == Value(t)
    decreases |t|
  {
    if t == [] {
      assert z + t == z;
      ZerosHaveNoValue(z);
    } else {
      assert (z + t)[..|z + t| - 1] == z + t[..|t| - 1];
      LeadingZerosIgnored(z, t[..|t| - 1]);
    }
  }

  lemma {:induction false} ZerosHaveNoValue(z: JsString)
    requires forall i :: 0 <= i < |z| ==> z[i] == 0x30
    ensures Value(z) == 0
    decreases |z|
  {
    if z != [] {
      ZerosHaveNoValue(z[..|z| - 1]);
    }
  }

  /** A run followed by text of the other kind is the first token. */
  lemma RunLengthOfRun(t: JsString, rest: JsString)
    requires IsRun(t)
    requires rest != [] ==> IsDigit(rest[0]) != IsDigit(t[0])
    ensures RunLength(t + rest) == |t|
  {
    var s := t + rest;
    assert forall i :: 0 <= i < |t| ==> s[i] == t[i];
    assert rest != [] ==> s[|t|] == rest[0];
  }

  lemma TokenizeRun(t: JsString, rest: JsString)
    requires IsRun(t)
    requires rest != [] ==> IsDigit(rest[0]) != IsDigit(t[0])
    ensures Tokenize(t + rest) == [t] + Tokenize(rest)
  {
    RunLengthOfRun(t, rest);
    assert (t + rest)[..|t|] == t;
    assert (t + rest)[|t|..] == rest;
  }

  lemma TokenizeOne(t: JsString)
    requires IsRun(t)
    ensures Tokenize(t) == [t]
  {
    TokenizeRun(t, []);
    assert t + [] == t;
  }

  lemma TokenizeTwo(t: JsString, u: JsString)
    requires IsRun(t) && IsRun(u) && IsDigit(t[0]) != IsDigit(u[0])
    ensures Tokenize(t + u) == [t, u]
  {
    TokenizeRun(t, u);
    TokenizeOne(u);
  }

  /** A first pair of tokens that compare equal is passed over. */
  lemma SkipEqualToken(x: JsString, y: JsString, xs: seq<JsString>, ys: seq<JsString>)
    requires ComparePart(x, y) == 0
    ensures CompareTokens([x] + xs, [y] + ys) == CompareTokens(xs, ys)
  {
    assert ([x] + xs)[1..] == xs && ([y] + ys)[1..] == ys;
  }

  /** Two strings of digits only compare by their numeric values. */
  lemma CompareDigitStrings(a: JsString, b: JsString)
    requires |a| > 0 && AllDigits(a) && |b| > 0 && AllDigits(b)
    ensures Compare(a, b) == Value(a) - Value(b)
  {
    TokenizeOne(a);
    TokenizeOne(b);
    assert Compare(a, b) == CompareTokens([a], [b]);
    assert ContainsDigit(a) by { assert IsDigit(a[0]); }
    assert ContainsDigit(b) by { assert IsDigit(b[0]); }
    assert ComparePart(a, b) == Value(a) - Value(b);
    assert [a][1..] == [] && [b][1..] == [];
    assert CompareTokens([a], [b]) == Value(a) - Value(b);
  }

  /*** Strings written in ASCII ***/

  /** The code units of an ASCII string literal. */
  function Ascii(s: string): (r: JsString)
    requires forall i :: 0 <= i < |s| ==> s[i] as int < 0x80
    ensures |r| == |s|
    ensures forall i :: 0 <= i < |s| ==> r[i] as int == s[i] as int
  {
    seq(|s|, i requires 0 <= i < |s| => s[i] as int as CodeUnit)
  }

  /*** General orderings ***/

  /** A token list sorts before any longer list that extends it. */
  lemma {:induction false} CompareTokensPrefixFirst(xs: seq<JsString>, ys: seq<JsString>)
    requires ys != []
    ensures CompareTokens(xs, xs + ys) < 0
    decreases |xs|
  {
    if xs == [] {
      assert xs + ys == ys;
    } else {
      CompareTokensReflexive([xs[0]]);
      assert (xs + ys)[0] == xs[0] && (xs + ys)[1..] == xs[1..] + ys;
      CompareTokensPrefixFirst(xs[1..], ys);
    }
  }

  /** Two strings made of the same word followed by a number compare by the
      numbers' values. */
  lemma SameWordThenNumber(w: JsString, d: JsString, e: JsString)
    requires IsRun(w) && NoDigits(w)
    requires IsRun(d) && AllDigits(d) && IsRun(e) && AllDigits(e)
    ensures Compare(w + d, w + e) == Value(d) - Value(e)
  {
    TokenizeTwo(w, d);
    TokenizeTwo(w, e);
    assert ContainsDigit(d) && ContainsDigit(e);
    SkipEqualToken(w, w, [d], [e]);
    assert [d][1..] == [] && [e][1..] == [];
  }

  /** A word and a number sort before the same word and number followed by
      further text. */
  lemma ShorterFirst(w: JsString, d: JsString, x: JsString)
    requires IsRun(w) && NoDigits(w) && IsRun(d) && AllDigits(d) && IsRun(x) && NoDigits(x)
    ensures Compare(w + d, w + d + x) < 0
  {
    assert !IsDigit(w[0]) && IsDigit(d[0]) && !IsDigit(x[0]);
    assert Tokenize(w + d) == [w, d] by {
      TokenizeTwo(w, d);
    }
    assert Tokenize(w + d + x) == [w, d] + [x] by {
      assert w + d + x == w + (d + x) && (d + x)[0] == d[0];
      TokenizeTwo(d, x);
      TokenizeRun(w, d + x);
    }
    CompareTokensPrefixFirst([w, d], [x]);
  }

  /** Zeros written before a number do not change where a string sorts. */
  lemma ZeroPaddedNumber(w: JsString, z: JsString, d: JsString)
    requires IsRun(w) && NoDigits(w) && IsRun(d) && AllDigits(d)
    requires forall i :: 0 <= i < |z| ==> z[i] == 0x30
    ensures Compare(w + (z + d), w + d) == 0
  {
    assert forall i :: 0 <= i < |z + d| ==> (z + d)[i] == if i < |z| then z[i] else d[i - |z|];
    assert IsRun(z + d) && AllDigits(z + d);
    TokenizeTwo(w, z + d);
    TokenizeTwo(w, d);
    LeadingZerosIgnored(z, d);
    assert ContainsDigit(d) && ContainsDigit(z + d);
    SkipEqualToken(w, w, [z + d], [d]);
    assert [z + d][1..] == [] && [d][1..] == [];
  }

  /*** Examples ***/

  /** "item2" sorts before "item10". */
  lemma Item2BeforeItem10()
    ensures Compare(Ascii("item2"), Ascii("item10")) < 0
  {
    var item: JsString := [0x69, 0x74, 0x65, 0x6D];
    var two: JsString := [0x32];
    var ten: JsString := [0x31, 0x30];
    assert Ascii("item2") == item + two;
    assert Ascii("item10") == item + ten;
    assert IsRun(item) && NoDigits(item) && IsRun(two) && AllDigits(two) && IsRun(ten) && AllDigits(ten);
    assert ten[..1] == [0x31];
    SameWordThenNumber(item, two, ten);
  }

  /** "item10" sorts before "item10b". */
  lemma Item10BeforeItem10b()
    ensures Compare(Ascii("item10"), Ascii("item10b")) < 0
  {
    var item: JsString := [0x69, 0x74, 0x65, 0x6D];
    var ten: JsString := [0x31, 0x30];
    var b: JsString := [0x62];
    assert Ascii("item10") == item + ten;
    assert Ascii("item10b") == item + ten + b;
    assert IsRun(item) && NoDigits(item) && IsRun(ten) && AllDigits(ten) && IsRun(b) && NoDigits(b);
    ShorterFirst(item, ten, b);
  }

  /** Digit runs that differ only by leading zeros compare equal:
      "a01" against "a1" gives 0. */
  lemma LeadingZerosExample()
    ensures Compare(Ascii("a01"), Ascii("a1")) == 0
  {
    var a: JsString := [0x61];
    var zero: JsString := [0x30];
    var one: JsString := [0x31];
    assert Ascii("a01") == a + (zero + one);
    assert Ascii("a1") == a + one;
    assert IsRun(a) && NoDigits(a) && IsRun(one) && AllDigits(one);
    ZeroPaddedNumber(a, zero, one);
  }
}
