/**
 * Helpers shared by every page model: the outcome of a call to the store,
 * the JavaScript string operations the pages rely on (`trim`, `length`,
 * `toUpperCase`), `Math.round` of a non-negative ratio, and duplicate-free
 * sequences (`new Set(...)` and `Map` insertion order).
 */
module Common {

  datatype Option<T> = None | Some(value: T)

  /** The result of one awaited call to the store: it returned without an
      error object, or with one (the page then takes its `catch` path). */
  datatype Call = Ok | Failed

  // ---------------------------------------------------------------------
  // Strings

  /** ECMAScript WhiteSpace and LineTerminator code points: the characters
      `String.prototype.trim` removes. */
  predicate IsJsSpace(c: char) {
    || c == '\t' || c == '\n' || c == '\U{000B}' || c == '\U{000C}' || c == '\r'
    || c == ' ' || c == '\U{00A0}' || c == '\U{1680}'
    || ('\U{2000}' <= c <= '\U{200A}')
    || c == '\U{2028}' || c == '\U{2029}' || c == '\U{202F}' || c == '\U{205F}'
    || c == '\U{3000}' || c == '\U{FEFF}'
  }

  /** A string made of white space only (the empty string included). */
  predicate IsBlank(s: string) {
    forall i :: 0 <= i < |s| ==> IsJsSpace(s[i])
  }

  function TrimStart(s: string): (r: string)
    ensures |r| <= |s| && r == s[|s| - |r|..]
    ensures forall i :: 0 <= i < |s| - |r| ==> IsJsSpace(s[i])
    ensures |r| > 0 ==> !IsJsSpace(r[0])
  {
    if |s| > 0 && IsJsSpace(s[0]) then TrimStart(s[1..]) else s
  }

  function TrimEnd(s: string): (r: string)
    ensures |r| <= |s| && r == s[..|r|]
    ensures forall i :: |r| <= i < |s| ==> IsJsSpace(s[i])
    ensures |r| > 0 ==> !IsJsSpace(r[|r| - 1])
  {
    if |s| > 0 && IsJsSpace(s[|s| - 1]) then TrimEnd(s[..|s| - 1]) else s
  }

  /** `s.trim()`. */
  function Trim(s: string): string {
    TrimEnd(TrimStart(s))
  }

  /** `!s.trim()` holds exactly for the blank strings. */
  lemma TrimEmptyIffBlank(s: string)
    ensures Trim(s) == "" <==> IsBlank(s)
  {
  }

  /** `s.length`: the number of UTF-16 code units, so a character outside
      the Basic Multilingual Plane counts twice. */
  function Utf16Length(s: string): (n: nat)
    ensures |s| <= n <= 2 * |s|
    ensures (forall i :: 0 <= i < |s| ==> s[i] as int <= 0xFFFF) ==> n == |s|
  {
    if |s| == 0 then 0
    else (if s[0] as int > 0xFFFF then 2 else 1) + Utf16Length(s[1..])
  }

  function UpperAscii(c: char): char {
    if 'a' <= c <= 'z' then (c as int - 32) as char else c
  }

  /** `s.toUpperCase()` restricted to ASCII letters. */
  function AsciiUpper(s: string): (r: string)
    ensures |r| == |s|
    ensures forall i :: 0 <= i < |s| ==> r[i] == UpperAscii(s[i])
  {
    if |s| == 0 then "" else [UpperAscii(s[0])] + AsciiUpper(s[1..])
  }

  /** Upper-casing twice is upper-casing once. */
  lemma AsciiUpperIdempotent(s: string)
    ensures AsciiUpper(AsciiUpper(s)) == AsciiUpper(s)
  {
  }

  // ---------------------------------------------------------------------
  // Rounding

  /** `Math.round(num / den)` for a non-negative ratio: the nearest integer,
      with a half rounding up. */
  function RoundedRatio(num: nat, den: nat): (r: nat)
    requires den > 0
    ensures 2 * den * r <= 2 * num + den < 2 * den * (r + 1)
  {
    var x := 2 * num + den;
    var y := 2 * den;
    assert x == y * (x / y) + x % y;
    x / y
  }

  /** The integer the characterisation of `RoundedRatio` allows is unique. */
  lemma RoundedRatioUnique(num: nat, den: nat, k: int)
    requires den > 0
    requires 2 * den * k <= 2 * num + den < 2 * den * (k + 1)
    ensures k == RoundedRatio(num, den)
  {
    var r := RoundedRatio(num, den);
    ScaledLess(2 * den, k, r + 1);
    ScaledLess(2 * den, r, k + 1);
  }

  lemma ScaledLess(a: int, x: int, y: int)
    requires a > 0 && a * x < a * y
    ensures x < y
  {
    if x >= y {
      ScaledMonotone(a, y, x);
    }
  }

  lemma ScaledMonotone(a: nat, x: int, y: int)
    requires x <= y
    ensures a * x <= a * y
  {
    assert a * y - a * x == a * (y - x);
  }

  /** `Math.round((part / whole) * 100)`. */
  function RoundedPercent(part: nat, whole: nat): (p: nat)
    requires whole > 0
    ensures part <= whole ==> p <= 100
    ensures part == 0 ==> p == 0
    ensures part == whole ==> p == 100
  {
    PercentBounds(part, whole);
    RoundedRatio(100 * part, whole)
  }

  lemma PercentBounds(part: nat, whole: nat)
    requires whole > 0
    ensures part <= whole ==> RoundedRatio(100 * part, whole) <= 100
    ensures part == 0 ==> RoundedRatio(100 * part, whole) == 0
    ensures part == whole ==> RoundedRatio(100 * part, whole) == 100
  {
    var p := RoundedRatio(100 * part, whole);
    if part <= whole {
      ScaledMonotone(200, part, whole);
      assert 2 * whole * p < 2 * whole * 101;
      ScaledLess(2 * whole, p, 101);
    }
    if part == 0 {
      RoundedRatioUnique(0, whole, 0);
    }
    if part == whole {
      assert 2 * whole * 100 <= 2 * (100 * part) + whole < 2 * whole * (100 + 1);
      RoundedRatioUnique(100 * part, whole, 100);
    }
  }

  // ---------------------------------------------------------------------
  // Sums and duplicate-free sequences

  function Sum(xs: seq<int>): int {
    if |xs| == 0 then 0 else xs[0] + Sum(xs[1..])
  }

  lemma {:induction false} SumAppend(xs: seq<int>, ys: seq<int>)
    ensures Sum(xs + ys) == Sum(xs) + Sum(ys)
  {
    if |xs| == 0 {
      assert xs + ys == ys;
    } else {
      assert (xs + ys)[1..] == xs[1..] + ys;
      SumAppend(xs[1..], ys);
    }
  }

  predicate NoDups<T(==)>(s: seq<T>) {
    forall i, j :: 0 <= i < j < |s| ==> s[i] != s[j]
  }

  /** The distinct elements of `s` in order of first appearance: what
      `Array.from(new Set(s))` and the keys of a `Map` filled from `s` give. */
  function Dedup<T(==,!new)>(s: seq<T>): (r: seq<T>)
    ensures NoDups(r)
    ensures forall x :: x in r <==> x in s
  {
    if |s| == 0 then []
    else
      var d := Dedup(s[..|s| - 1]);
      assert forall x :: x in s <==> x in s[..|s| - 1] || x == s[|s| - 1];
      if s[|s| - 1] in d then d else d + [s[|s| - 1]]
  }

  /** First-appearance order: a new element goes at the end, a repeated one
      changes nothing. */
  lemma DedupSnoc<T(!new)>(s: seq<T>, x: T)
    ensures Dedup(s + [x]) == if x in s then Dedup(s) else Dedup(s) + [x]
  {
    assert (s + [x])[..|s + [x]| - 1] == s;
  }

  lemma {:induction false} NoDupsCardinality<T(!new)>(s: seq<T>)
    requires NoDups(s)
    ensures |set x | x in s| == |s|
  {
    if |s| > 0 {
      var p := s[..|s| - 1];
      NoDupsCardinality(p);
      assert (set x | x in s) == (set x | x in p) + {s[|s| - 1]};
      assert s[|s| - 1] !in (set x | x in p);
    } else {
      assert (set x | x in s) == {};
    }
  }

  /** The length of the deduplicated sequence is the number of distinct
      elements, which is what `new Set(s).size` reports. */
  lemma DedupLengthIsDistinctCount<T(!new)>(s: seq<T>)
    ensures |Dedup(s)| == |set x | x in s|
  {
    NoDupsCardinality(Dedup(s));
    assert (set x | x in Dedup(s)) == (set x | x in s);
  }
}
