/**
  Hand-written recognisers for the three regular expressions of the
  extractor (extractor.py:10-13) and for Python's `float` on the strings
  the extractor hands to it.

  Every pattern ends in, or is followed only by separators after, the
  number `\d+\.?\d*`. The character after a shorter number than the greedy
  one is a digit or `.`, so backtracking into a number never produces a
  match the greedy choice misses: each recogniser takes the greedy number
  and `search` is the first position where the recogniser succeeds.
*/
module Patterns {
  import opened Optional
  import opened Text

  predicate IsComparator(c: char) {
    c == '<' || c == '>'
  }

  /** The class `[-–]`: a hyphen or an en dash. */
  predicate IsDash(c: char) {
    c == '-' || c == '\U{2013}'
  }

  predicate HasDash(s: string) {
    exists i | 0 <= i < |s| :: IsDash(s[i])
  }

  /** `Span` is determined by the run it measures. */
  lemma SpanUnique(s: string, p: nat, keep: char -> bool, m: nat)
    requires p + m <= |s|
    requires forall k | p <= k < p + m :: keep(s[k])
    requires p + m == |s| || !keep(s[p + m])
    ensures Span(s, p, keep) == m
  {
  }

  /** Length of the greedy match of `\d+\.?\d*` at `p`; 0 when there is none. */
  function NumberLen(s: string, p: nat): (n: nat)
    requires p <= |s|
    ensures p + n <= |s|
    ensures n > 0 <==> p < |s| && IsDigit(s[p])
  {
    var d := Span(s, p, IsDigit);
    if d == 0 then 0
    else if p + d < |s| && s[p + d] == '.' then d + 1 + Span(s, p + d + 1, IsDigit)
    else d
  }

  function NumberAt(s: string, p: nat): string
    requires p <= |s|
  {
    s[p..p + NumberLen(s, p)]
  }

  /** Python's `float` on a decimal literal `\d+(\.\d*)?`, exactly (no rounding
      to binary floating point); any other string raises, which is `None`. */
  function ToFloat(g: string): Option<real> {
    var d := Span(g, 0, IsDigit);
    if d == 0 then None
    else if d == |g| then Some(DigitsValue(g) as real)
    else if g[d] == '.' && d + 1 + Span(g, d + 1, IsDigit) == |g| then
      Some(DigitsValue(g[..d]) as real + DigitsValue(g[d + 1..]) as real / Pow10(|g| - d - 1) as real)
    else None
  }

  function DigitValue(c: char): nat {
    if IsDigit(c) then c as int - '0' as int else 0
  }

  function DigitsValue(ds: string): nat
    decreases |ds|
  {
    if ds == [] then 0 else 10 * DigitsValue(ds[..|ds| - 1]) + DigitValue(ds[|ds| - 1])
  }

  function Pow10(n: nat): (r: nat)
    ensures r >= 1
  {
    if n == 0 then 1 else 10 * Pow10(n - 1)
  }

  /** The number of times a positive number below 1 must be multiplied by
      ten to reach at least 1. */
  function UpSteps(a: real): nat
    requires 0.0 < a < 10.0
    decreases (1.0 / a).Floor
  {
    if a >= 1.0 then 0
    else
      UpMeasure(a);
      1 + UpSteps(10.0 * a)
  }

  /** A positive number below 10, scaled by a power of ten into [1, 10). */
  function ScaleUp(a: real): (m: real)
    requires 0.0 < a < 10.0
    ensures 1.0 <= m < 10.0
    ensures m == a * Pow10(UpSteps(a)) as real
    decreases (1.0 / a).Floor
  {
    if a >= 1.0 then a
    else
      UpMeasure(a);
      ScaleUp(10.0 * a)
  }

  lemma UpMeasure(a: real)
    requires 0.0 < a < 1.0
    ensures 0 <= (1.0 / (10.0 * a)).Floor < (1.0 / a).Floor
  {
    var y := 1.0 / a;
    assert y > 1.0;
    assert 1.0 / (10.0 * a) == y / 10.0;
  }

  /** The number of times a number of at least 1 must be divided by ten to
      fall below 10. */
  function DownSteps(a: real): nat
    requires a >= 1.0
    decreases a.Floor
  {
    if a < 10.0 then 0 else 1 + DownSteps(a / 10.0)
  }

  /** A number of at least 1, scaled by a power of ten into [1, 10). */
  function ScaleDown(a: real): (m: real)
    requires a >= 1.0
    ensures 1.0 <= m < 10.0
    ensures a == m * Pow10(DownSteps(a)) as real
    decreases a.Floor
  {
    if a < 10.0 then a else ScaleDown(a / 10.0)
  }

  /** Every number the patterns capture is accepted by `float`, so the
      `try` around each conversion only ever catches the comparator case. */
  lemma NumberParses(s: string, p: nat)
    requires p <= |s| && NumberLen(s, p) > 0
    ensures ToFloat(NumberAt(s, p)).Some?
  {
    var g := NumberAt(s, p);
    var d := Span(s, p, IsDigit);
    SpanUnique(g, 0, IsDigit, if d < |g| then d else |g|);
    if d < |g| {
      var e := Span(s, p + d + 1, IsDigit);
      assert |g| == d + 1 + e;
      SpanUnique(g, d + 1, IsDigit, e);
    }
  }

  /** A comparator never parses as a number: `float('>')` raises. */
  lemma ComparatorDoesNotParse(c: char)
    requires IsComparator(c)
    ensures ToFloat([c]).None?
  {
    assert Span([c], 0, IsDigit) == 0;
  }

  // ---------------------------------------------------------------------
  // value_pattern  ([<>]=?\s*)?(\d+\.?\d*)   -- group 2

  /** The position after the white space run that starts at `p` (`\s*`). */
  function SkipSpace(s: string, p: nat): (q: nat)
    requires p <= |s|
    ensures p <= q <= |s|
  {
    p + Span(s, p, IsSpace)
  }

  /** Where the number starts after the prefix `[<>]=?\s*` at a comparator `p`. */
  function PrefixEnd(s: string, p: nat): (d: nat)
    requires p < |s|
    ensures p < d <= |s|
  {
    var q := p + 1 + (if p + 1 < |s| && s[p + 1] == '=' then 1 else 0);
    SkipSpace(s, q)
  }

  function ValueMatchAt(s: string, p: nat): Option<string>
    requires p <= |s|
  {
    if p < |s| && IsComparator(s[p]) && NumberLen(s, PrefixEnd(s, p)) > 0 then Some(NumberAt(s, PrefixEnd(s, p)))
    else if NumberLen(s, p) > 0 then Some(NumberAt(s, p))
    else None
  }

  /** `value_pattern.search(s)`, giving group 2 of the first match at or after `p`. */
  function ValueSearch(s: string, p: nat): Option<string>
    requires p <= |s|
    decreases |s| - p
  {
    var m := ValueMatchAt(s, p);
    if m.Some? || p == |s| then m else ValueSearch(s, p + 1)
  }

  /** Index of the first digit at or after `p`, or `|s|` when there is none. */
  function FirstDigitFrom(s: string, p: nat): nat
    requires p <= |s|
  {
    p + Span(s, p, NotDigit)
  }

  /** A match attempt at a position that is not a digit captures, when it
      succeeds, the number at the first digit after that position. */
  lemma ValueMatchAtNonDigit(s: string, p: nat)
    requires p < |s| && !IsDigit(s[p])
    ensures FirstDigitFrom(s, p) <= |s|
    ensures ValueMatchAt(s, p).Some? ==>
      FirstDigitFrom(s, p) < |s| && ValueMatchAt(s, p) == Some(NumberAt(s, FirstDigitFrom(s, p)))
  {
    if IsComparator(s[p]) {
      ComparatorValueMatch(s, p);
    } else {
      assert NumberLen(s, p) == 0;
    }
  }

  /** After a comparator, the value pattern takes the number that follows the
      optional `=` and white space, which starts at the first digit. */
  lemma ComparatorValueMatch(s: string, p: nat)
    requires p < |s| && IsComparator(s[p])
    ensures ValueMatchAt(s, p).Some? ==>
      FirstDigitFrom(s, p) < |s| && ValueMatchAt(s, p) == Some(NumberAt(s, FirstDigitFrom(s, p)))
  {
    var q := p + 1 + (if p + 1 < |s| && s[p + 1] == '=' then 1 else 0);
    var d := PrefixEnd(s, p);
    assert NumberLen(s, p) == 0;
    if NumberLen(s, d) > 0 {
      PrefixBeforeFirstDigit(s, p, q, d);
    }
  }

  /** Non-digits up to `q` and then white space up to a digit at `d`: the
      first digit from `p` is at `d`. */
  lemma PrefixBeforeFirstDigit(s: string, p: nat, q: nat, d: nat)
    requires p < q <= p + 2 && q <= |s| && NotDigit(s[p]) && (q == p + 2 ==> NotDigit(s[p + 1]))
    requires d == SkipSpace(s, q) && NumberLen(s, d) > 0
    ensures FirstDigitFrom(s, p) == d
  {
    assert forall k | q <= k < d :: NotDigit(s[k]);
    SpanUnique(s, p, NotDigit, d - p);
  }

  /** The value pattern matches exactly when there is a digit, and its number
      group is then the number that starts at the first digit: an optional
      comparator prefix never moves the captured number. */
  lemma {:induction false} ValueSearchFirstNumber(s: string, p: nat)
    requires p <= |s|
    ensures FirstDigitFrom(s, p) <= |s|
    ensures ValueSearch(s, p) ==
      if FirstDigitFrom(s, p) < |s| then Some(NumberAt(s, FirstDigitFrom(s, p))) else None
    decreases |s| - p
  {
    if p < |s| && !IsDigit(s[p]) {
      ValueMatchAtNonDigit(s, p);
      assert FirstDigitFrom(s, p) == FirstDigitFrom(s, p + 1);
      if ValueMatchAt(s, p).None? {
        ValueSearchFirstNumber(s, p + 1);
      }
    }
  }

  // ---------------------------------------------------------------------
  // range_pattern  (\d+\.?\d*)\s*[-–]\s*(\d+\.?\d*)

  function RangeMatchAt(s: string, p: nat): Option<(string, string)>
    requires p <= |s|
  {
    var n := NumberLen(s, p);
    if n == 0 then None
    else
      var q := SkipSpace(s, p + n);
      if q < |s| && IsDash(s[q]) then
        var d := SkipSpace(s, q + 1);
        if NumberLen(s, d) > 0 then Some((NumberAt(s, p), NumberAt(s, d))) else None
      else None
  }

  /** `range_pattern.search(s)`, giving groups 1 and 2 of the first match at or after `p`. */
  function RangeSearch(s: string, p: nat): Option<(string, string)>
    requires p <= |s|
    decreases |s| - p
  {
    var m := RangeMatchAt(s, p);
    if m.Some? || p == |s| then m else RangeSearch(s, p + 1)
  }

  lemma RangeMatchAtShape(s: string, p: nat)
    requires p <= |s| && RangeMatchAt(s, p).Some?
    ensures HasDigit(s) && HasDash(s)
    ensures ToFloat(RangeMatchAt(s, p).value.0).Some? && ToFloat(RangeMatchAt(s, p).value.1).Some?
  {
    var q, d := RangeMatchAtParts(s, p);
    DigitAndDash(s, p, q);
    NumberParses(s, p);
    NumberParses(s, d);
  }

  /** A range match at `p` is the number at `p` and the number at some `d`
      after the dash at `q`. */
  lemma RangeMatchAtParts(s: string, p: nat) returns (q: nat, d: nat)
    requires p <= |s| && RangeMatchAt(s, p).Some?
    ensures q < |s| && IsDash(s[q]) && d <= |s| && NumberLen(s, p) > 0 && NumberLen(s, d) > 0
    ensures RangeMatchAt(s, p) == Some((NumberAt(s, p), NumberAt(s, d)))
  {
    q := SkipSpace(s, p + NumberLen(s, p));
    d := SkipSpace(s, q + 1);
  }

  lemma DigitAndDash(s: string, p: nat, q: nat)
    requires p <= |s| && NumberLen(s, p) > 0 && q < |s| && IsDash(s[q])
    ensures HasDigit(s) && HasDash(s)
  {
  }

  /** A text the range pattern matches holds a digit and a dash, and both
      captured groups are numbers `float` accepts. */
  lemma {:induction false} RangeSearchShape(s: string, p: nat)
    requires p <= |s|
    ensures RangeSearch(s, p).Some? ==>
      HasDigit(s) && HasDash(s)
      && ToFloat(RangeSearch(s, p).value.0).Some? && ToFloat(RangeSearch(s, p).value.1).Some?
    decreases |s| - p
  {
    if RangeMatchAt(s, p).Some? {
      RangeMatchAtShape(s, p);
    } else if p < |s| {
      RangeSearchShape(s, p + 1);
    }
  }

  // ---------------------------------------------------------------------
  // limit_pattern  ([<>])\s*(\d+\.?\d*)

  function LimitMatchAt(s: string, p: nat): Option<(char, string)>
    requires p <= |s|
  {
    if p < |s| && IsComparator(s[p]) then
      var d := SkipSpace(s, p + 1);
      if NumberLen(s, d) > 0 then Some((s[p], NumberAt(s, d))) else None
    else None
  }

  /** `limit_pattern.search(s)`, giving groups 1 and 2 of the first match at or after `p`. */
  function LimitSearch(s: string, p: nat): Option<(char, string)>
    requires p <= |s|
    decreases |s| - p
  {
    var m := LimitMatchAt(s, p);
    if m.Some? || p == |s| then m else LimitSearch(s, p + 1)
  }

  /** `<` or `>` at `i`, then optional white space, then a digit. */
  predicate ComparatorBeforeDigit(s: string, i: nat) {
    i < |s| && IsComparator(s[i])
    && var d := SkipSpace(s, i + 1);
       d < |s| && IsDigit(s[d])
  }

  lemma LimitMatchAtShape(s: string, p: nat)
    requires p <= |s|
    ensures LimitMatchAt(s, p).Some? <==> ComparatorBeforeDigit(s, p)
    ensures LimitMatchAt(s, p).Some? ==>
      IsComparator(LimitMatchAt(s, p).value.0) && ToFloat(LimitMatchAt(s, p).value.1).Some?
  {
    if p < |s| && IsComparator(s[p]) {
      var d := SkipSpace(s, p + 1);
      if NumberLen(s, d) > 0 {
        NumberParses(s, d);
      }
    }
  }

  /** The limit pattern matches exactly when some comparator is followed,
      after optional white space, by a digit; the match found is the first
      such comparator, and its number is accepted by `float`. */
  lemma LimitSearchShape(s: string, p: nat)
    requires p <= |s|
    ensures LimitSearch(s, p).Some? <==> exists i | p <= i < |s| :: ComparatorBeforeDigit(s, i)
    ensures LimitSearch(s, p).Some? ==>
      IsComparator(LimitSearch(s, p).value.0) && ToFloat(LimitSearch(s, p).value.1).Some?
    ensures LimitSearch(s, p).Some? ==>
      exists i | p <= i < |s| ::
        ComparatorBeforeDigit(s, i) && LimitSearch(s, p) == LimitMatchAt(s, i)
        && forall j | p <= j < i :: !ComparatorBeforeDigit(s, j)
  {
    LimitSearchFound(s, p);
    if LimitSearch(s, p).Some? {
      var i := LimitSearchFirst(s, p);
      LimitMatchAtShape(s, i);
      forall j | p <= j < i ensures !ComparatorBeforeDigit(s, j) {
        LimitMatchAtShape(s, j);
      }
    }
  }

  lemma {:induction false} LimitSearchFound(s: string, p: nat)
    requires p <= |s|
    ensures LimitSearch(s, p).Some? <==> exists i | p <= i < |s| :: ComparatorBeforeDigit(s, i)
    ensures LimitSearch(s, p).Some? ==>
      IsComparator(LimitSearch(s, p).value.0) && ToFloat(LimitSearch(s, p).value.1).Some?
    decreases |s| - p
  {
    LimitMatchAtShape(s, p);
    if LimitMatchAt(s, p).None? && p < |s| {
      LimitSearchFound(s, p + 1);
    }
  }

  /** The position of the match `LimitSearch` finds: no match starts before it. */
  lemma {:induction false} LimitSearchFirst(s: string, p: nat) returns (i: nat)
    requires p <= |s| && LimitSearch(s, p).Some?
    ensures p <= i < |s| && LimitSearch(s, p) == LimitMatchAt(s, i)
    ensures forall j | p <= j < i :: LimitMatchAt(s, j).None?
    decreases |s| - p
  {
    if LimitMatchAt(s, p).Some? {
      i := p;
      assert p < |s|;
    } else {
      i := LimitSearchFirst(s, p + 1);
    }
  }
}
