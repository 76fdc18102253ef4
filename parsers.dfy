/**
  The cell predicates and parsers of the extractor: `_find_unit`,
  `_is_plausible_value`, `_parse_numeric_value`, `_looks_like_range` and
  `_parse_range_bounds` (extractor.py:140-186).
*/
module Parsers {
  import opened Optional
  import opened Text
  import opened Patterns
  import Config

  // ---------------------------------------------------------------------
  // _find_unit

  /** The class `[\s/()]` that `_find_unit` splits on. */
  predicate IsUnitSeparator(c: char) {
    IsSpace(c) || c == '/' || c == '(' || c == ')'
  }

  /** The characters `_find_unit` strips from both ends of a word. */
  predicate IsUnitPunctuation(c: char) {
    c == '[' || c == ']' || c == '{' || c == '}' || c == ',' || c == '.' || c == ':' || c == ';'
  }

  function Clean(word: string): string {
    Trim(word, IsUnitPunctuation)
  }

  /** `cleaned_word.lower() == known_unit.lower()`. */
  predicate UnitMatches(cleaned: string, unit: string) {
    Lower(cleaned) == Lower(unit)
  }

  /** A word that, cleaned and lower-cased, is one of the known units. */
  predicate IsUnitWord(word: string) {
    exists k | 0 <= k < |Config.CommonUnits| :: UnitMatches(Clean(word), Config.CommonUnits[k])
  }

  /** The first word of `words` that satisfies `p`. */
  function FirstWhere(words: seq<string>, p: string -> bool): (r: Option<string>)
    ensures r.None? <==> forall j | 0 <= j < |words| :: !p(words[j])
    ensures r.Some? ==>
      exists i | 0 <= i < |words| :: words[i] == r.value && p(words[i]) && forall j | 0 <= j < i :: !p(words[j])
  {
    if words == [] then None
    else if p(words[0]) then Some(words[0])
    else
      var r := FirstWhere(words[1..], p);
      assert forall j | 1 <= j < |words| :: words[j] == words[1..][j - 1];
      r
  }

  lemma {:induction false} FirstWhereAt(words: seq<string>, p: string -> bool, i: nat)
    requires i < |words| && p(words[i])
    requires forall j | 0 <= j < i :: !p(words[j])
    ensures FirstWhere(words, p) == Some(words[i])
  {
    if i > 0 {
      assert !p(words[0]);
      assert forall j | 0 <= j < i - 1 :: words[1..][j] == words[j + 1];
      FirstWhereAt(words[1..], p, i - 1);
    }
  }

  /** What `_find_unit(text)` returns: the first unit word, raw and not cleaned. */
  function UnitOf(text: string): Option<string> {
    FirstWhere(Split(text, IsUnitSeparator), IsUnitWord)
  }

  /** `_find_unit` (extractor.py:156-163): the outer loop over the words,
      returning the first word the inner loop matches. */
  method FindUnit(text: string) returns (r: Option<string>)
    ensures r == UnitOf(text)
  {
    var words := Split(text, IsUnitSeparator);
    for i := 0 to |words|
      invariant forall j | 0 <= j < i :: !IsUnitWord(words[j])
    {
      var word := words[i];
      var known := MatchesKnownUnit(Clean(word));
      if known {
        FirstWhereAt(words, IsUnitWord, i);
        return Some(word);
      }
      NoUnitYet(words, i);
    }
    return None;
  }

  /** A word the inner loop rejects extends the run of words that are no unit. */
  lemma NoUnitYet(words: seq<string>, i: nat)
    requires i < |words| && forall j | 0 <= j < i :: !IsUnitWord(words[j])
    requires !exists k | 0 <= k < |Config.CommonUnits| :: UnitMatches(Clean(words[i]), Config.CommonUnits[k])
    ensures forall j | 0 <= j <= i :: !IsUnitWord(words[j])
  {
  }

  /** The inner loop of `_find_unit` (extractor.py:160-162): does the cleaned
      word equal some known unit, ignoring case? */
  method MatchesKnownUnit(cleanedWord: string) returns (found: bool)
    ensures found <==> exists k | 0 <= k < |Config.CommonUnits| :: UnitMatches(cleanedWord, Config.CommonUnits[k])
  {
    for k := 0 to |Config.CommonUnits|
      invariant forall m | 0 <= m < k :: !UnitMatches(cleanedWord, Config.CommonUnits[m])
    {
      if Lower(cleanedWord) == Lower(Config.CommonUnits[k]) {
        assert UnitMatches(cleanedWord, Config.CommonUnits[k]);
        return true;
      }
    }
    return false;
  }

  lemma LowerKeepsSlash(s: string)
    ensures '/' in Lower(s) <==> '/' in s
  {
    if '/' in s {
      var i :| 0 <= i < |s| && s[i] == '/';
      assert Lower(s)[i] == '/';
    }
    if '/' in Lower(s) {
      var i :| 0 <= i < |s| && Lower(s)[i] == '/';
      assert s[i] == '/';
    }
  }

  /** A word without `/` is no unit spelled with `/`: the only units `_find_unit`
      can ever report are `%`, `pg` and `fl`, in any case. */
  lemma SlashFreeUnitWord(word: string)
    requires '/' !in word && IsUnitWord(word)
    ensures Lower(Clean(word)) in ["%", "pg", "fl"]
    ensures word != []
  {
    var c := Clean(word);
    CleanIsInside(word);
    LowerKeepsSlash(c);
    var k :| 0 <= k < |Config.CommonUnits| && UnitMatches(c, Config.CommonUnits[k]);
    var u := Config.CommonUnits[k];
    assert Lower(c) == Lower(u);
    LowerKeepsSlash(u);
    SlashFreeUnits(k);
    assert |c| == |Lower(c)| > 0;
  }

  /** Cleaning a word keeps a part of it: no longer, and no `/` it did not have. */
  lemma CleanIsInside(word: string)
    ensures |Clean(word)| <= |word|
    ensures '/' !in word ==> '/' !in Clean(word)
  {
    var t := TrimStart(word, IsUnitPunctuation);
    var c := TrimEnd(t, IsUnitPunctuation);
    assert c == Clean(word);
    if '/' !in word {
      SliceKeepsAbsent(word, '/', |word| - |t|, |word|);
      SliceKeepsAbsent(t, '/', 0, |c|);
    }
  }

  /** Of the known units, only `%`, `pg` and `fl` are written without `/`. */
  lemma SlashFreeUnits(k: nat)
    requires k < |Config.CommonUnits|
    ensures '/' in Config.CommonUnits[k] || Lower(Config.CommonUnits[k]) in ["%", "pg", "fl"]
  {
    var u := Config.CommonUnits[k];
    if k == 0 {
      assert u == "%";
      assert Lower(u) == "%";
    } else if k == 1 {
      assert u[1] == '/';
    } else if k == 2 {
      assert u[2] == '/';
    } else if k == 3 {
      assert u[1] == '/';
    } else if k == 4 {
      assert u[2] == '/';
    } else if k == 5 {
      assert u[4] == '/';
    } else if k == 6 {
      assert u == "pg";
      assert Lower(u) == "pg";
    } else if k == 7 {
      assert u == "fl";
      assert Lower(u) == "fl";
    } else if k == 8 {
      assert u[0] == '/';
    } else if k == 9 {
      assert u[0] == '/';
    } else if k == 10 {
      assert u[5] == '/';
    } else if k == 11 {
      assert u[5] == '/';
    } else if k == 12 {
      assert u[3] == '/';
    } else if k == 13 {
      assert u[2] == '/';
    }
  }

  /** A unit found in a text is one of its separator-free words, and it is
      `%`, `pg` or `fl` once cleaned and lower-cased. */
  lemma UnitOfShape(text: string)
    ensures UnitOf(text).Some? ==>
      UnitOf(text).value in Split(text, IsUnitSeparator)
      && Lower(Clean(UnitOf(text).value)) in ["%", "pg", "fl"]
      && UnitOf(text).value != []
  {
    var words := Split(text, IsUnitSeparator);
    var r := FirstWhere(words, IsUnitWord);
    if r.Some? {
      var i :| 0 <= i < |words| && words[i] == r.value && IsUnitWord(words[i]);
      assert words[i] in words;
      SlashFreeUnitWord(words[i]);
    }
  }

  /** `g/dl` splits into `g` and `dl`, neither of which is a unit, so the
      most common haemoglobin unit is never reported. */
  lemma GramsPerDecilitreIsNoUnit()
    ensures UnitOf("g/dl") == None
  {
    var words := Split("g/dl", IsUnitSeparator);
    SplitGramsPerDecilitre();
    NeitherWordIsUnit();
    assert words == ["g", "dl"];
    assert words[1..] == ["dl"] && words[1..][1..] == [];
    assert FirstWhere(words[1..], IsUnitWord) == None;
  }

  lemma NeitherWordIsUnit()
    ensures !IsUnitWord("g") && !IsUnitWord("dl")
  {
    LetterWordIsNoUnit("g");
    LetterWordIsNoUnit("dl");
  }

  /** A word of lower-case letters that starts with neither `p` nor `f` is no unit. */
  lemma LetterWordIsNoUnit(w: string)
    requires w != [] && w[0] != 'p' && w[0] != 'f'
    requires forall i | 0 <= i < |w| :: 'a' <= w[i] <= 'z'
    ensures !IsUnitWord(w)
  {
    assert '/' !in Lower(Clean(w)) && Lower(Clean(w)) !in ["%", "pg", "fl"] by {
      PlainWord(w);
      assert w[0] != "%"[0] && w[0] != "pg"[0] && w[0] != "fl"[0];
    }
    NotUnitWord(w);
  }

  /** A word of lower-case letters is its own cleaned, lower-case form. */
  lemma PlainWord(w: string)
    requires forall i | 0 <= i < |w| :: 'a' <= w[i] <= 'z'
    ensures Clean(w) == w && Lower(w) == w && '/' !in w
  {
    assert TrimStart(w, IsUnitPunctuation) == w;
    assert TrimEnd(w, IsUnitPunctuation) == w;
  }

  lemma SplitGramsPerDecilitre()
    ensures Split("g/dl", IsUnitSeparator) == ["g", "dl"]
  {
    var s := "g/dl";
    assert SpanUntil(s, 0, IsUnitSeparator) == 1;
    assert Span(s, 1, IsUnitSeparator) == 1;
    assert s[2..] == "dl";
    assert SpanUntil("dl", 0, IsUnitSeparator) == 2;
    assert Split("dl", IsUnitSeparator) == ["dl"];
    assert s[..1] == "g";
  }

  /** A word whose cleaned lower-case form has no `/` and is none of `%`,
      `pg` and `fl` is no unit. */
  lemma NotUnitWord(w: string)
    requires '/' !in Lower(Clean(w)) && Lower(Clean(w)) !in ["%", "pg", "fl"]
    ensures !IsUnitWord(w)
  {
    var c := Lower(Clean(w));
    forall k | 0 <= k < |Config.CommonUnits| ensures !UnitMatches(Clean(w), Config.CommonUnits[k]) {
      var u := Config.CommonUnits[k];
      SlashFreeUnits(k);
      LowerKeepsSlash(u);
    }
  }

  // ---------------------------------------------------------------------
  // _is_plausible_value

  /** `_is_plausible_value` (extractor.py:140-147). */
  predicate IsPlausibleValue(text: string) {
    var t := Strip(text);
    if t == [] || |t| > 30 then false
    else if ValueSearch(t, 0).Some? then true
    else if Lower(t) in Config.CommonTextResults then true
    else if t in Config.BarePunctuation || UnitOf(t) == Some(t) then false
    else true
  }

  /** The value pattern matches a text exactly when the text holds a digit. */
  lemma ValueSearchIffDigit(s: string)
    ensures ValueSearch(s, 0).Some? <==> HasDigit(s)
  {
    ValueSearchFirstNumber(s, 0);
    var f := FirstDigitFrom(s, 0);
    if f < |s| {
      assert IsDigit(s[f]);
    }
    if HasDigit(s) {
      var i :| 0 <= i < |s| && IsDigit(s[i]);
      assert !NotDigit(s[i]);
      assert i >= f;
    }
  }

  /** The four cases of `_is_plausible_value`, decided in this order: a blank or
      over-long text is not a value; a text with a digit or a qualitative result
      word is; a bare punctuation mark or a text that is exactly a unit word is
      not; anything else is. */
  lemma PlausibleValueCases(text: string)
    ensures var t := Strip(text);
      IsPlausibleValue(text) <==>
        1 <= |t| <= 30
        && (HasDigit(text) || Lower(t) in Config.CommonTextResults
            || !(t in Config.BarePunctuation || UnitOf(t) == Some(t)))
  {
    var t := Strip(text);
    ValueSearchIffDigit(t);
    StripKeepsDigits(text);
  }

  // ---------------------------------------------------------------------
  // _parse_numeric_value

  /** `text.replace(',', '')`. */
  function RemoveCommas(s: string): (r: string)
    ensures ',' !in r
    ensures HasDigit(r) <==> HasDigit(s)
    decreases |s|
  {
    if s == [] then []
    else
      var rest := RemoveCommas(s[1..]);
      var r := if s[0] == ',' then rest else [s[0]] + rest;
      assert HasDigit(s) <==> IsDigit(s[0]) || HasDigit(s[1..]) by {
        if HasDigit(s) {
          var i :| 0 <= i < |s| && IsDigit(s[i]);
          if i > 0 {
            assert s[1..][i - 1] == s[i];
          }
        }
        if HasDigit(s[1..]) {
          var i :| 0 <= i < |s[1..]| && IsDigit(s[1..][i]);
          assert s[i + 1] == s[1..][i];
        }
      }
      assert s[0] != ',' ==> (HasDigit(r) <==> IsDigit(s[0]) || HasDigit(rest)) by {
        if s[0] != ',' {
          assert r[0] == s[0];
          if HasDigit(r) && !IsDigit(s[0]) {
            var i :| 0 <= i < |r| && IsDigit(r[i]);
            assert i > 0 && rest[i - 1] == r[i];
          }
          if HasDigit(rest) {
            var i :| 0 <= i < |rest| && IsDigit(rest[i]);
            assert r[i + 1] == rest[i];
          }
        }
      }
      r
  }

  /** `_parse_numeric_value` (extractor.py:149-154): the number group of the
      first value-pattern match in the comma-free, stripped text. */
  function ParseNumeric(text: string): Option<real> {
    var s := Strip(RemoveCommas(text));
    var m := ValueSearch(s, 0);
    if m.Some? then ToFloat(m.value) else None
  }

  /** `_parse_numeric_value` gives a number exactly when the text holds a
      digit, and that number is the first number written in the comma-free
      text. */
  lemma ParseNumericIffDigit(text: string)
    ensures ParseNumeric(text).None? <==> !HasDigit(text)
    ensures var s := Strip(RemoveCommas(text));
      FirstDigitFrom(s, 0) <= |s|
      && (ParseNumeric(text).Some? ==> ParseNumeric(text) == ToFloat(NumberAt(s, FirstDigitFrom(s, 0))))
  {
    var s := Strip(RemoveCommas(text));
    StripKeepsDigits(RemoveCommas(text));
    ValueSearchIffDigit(s);
    ValueSearchFirstNumber(s, 0);
    var f := FirstDigitFrom(s, 0);
    if f < |s| {
      assert IsDigit(s[f]);
      NumberParses(s, f);
    }
  }

  // ---------------------------------------------------------------------
  // _looks_like_range

  /** `_looks_like_range` (extractor.py:165-171). */
  predicate LooksLikeRange(text: string) {
    var t := Strip(text);
    if t == [] || |t| > 50 then false
    else if RangeSearch(t, 0).Some? then true
    else if LimitSearch(t, 0).Some? then true
    else if HasDash(t) && HasDigit(t) then true
    else false
  }

  /** A text looks like a range exactly when, stripped, it has 1 to 50
      characters and either a comparator followed by optional white space and a
      digit, or a dash together with a digit; the range pattern adds nothing,
      since every text it matches has a dash and a digit. */
  lemma LooksLikeRangeIff(text: string)
    ensures var t := Strip(text);
      LooksLikeRange(text) <==>
        1 <= |t| <= 50
        && ((exists i | 0 <= i < |t| :: ComparatorBeforeDigit(t, i)) || (HasDash(t) && HasDigit(t)))
  {
    var t := Strip(text);
    RangeSearchShape(t, 0);
    LimitSearchShape(t, 0);
  }

  // ---------------------------------------------------------------------
  // _parse_range_bounds

  /** `_parse_range_bounds` (extractor.py:173-186), each `float` call that can
      raise followed by the fall-through its bare `except` gives. */
  function ParseRangeBounds(text: string): (Option<real>, Option<real>) {
    var t := Strip(text);
    var range := RangeSearch(t, 0);
    if range.Some? && ToFloat(range.value.0).Some? && ToFloat(range.value.1).Some? then
      (ToFloat(range.value.0), ToFloat(range.value.1))
    else
      var limit := LimitSearch(t, 0);
      if limit.Some? && ToFloat(limit.value.1).Some? then
        if limit.value.0 == '<' then (None, ToFloat(limit.value.1))
        else if limit.value.0 == '>' && ToFloat([limit.value.0]).Some? then (ToFloat([limit.value.0]), None)
        else (None, None)
      else (None, None)
  }

  /** The bounds read from a reference range: both bounds of the first
      `low - high` match; otherwise the bound of a first `<n` as the high bound;
      otherwise nothing, in particular for `>n`, whose branch converts the
      comparator instead of the number and so always lands in the `except`. */
  lemma ParseRangeBoundsCases(text: string)
    ensures var t := Strip(text);
      var range := RangeSearch(t, 0);
      var limit := LimitSearch(t, 0);
      ParseRangeBounds(text) ==
        if range.Some? then (ToFloat(range.value.0), ToFloat(range.value.1))
        else if limit.Some? && limit.value.0 == '<' then (None, ToFloat(limit.value.1))
        else (None, None)
    ensures ParseRangeBounds(text).0.Some? ==> ParseRangeBounds(text).1.Some?
  {
    var t := Strip(text);
    RangeSearchShape(t, 0);
    LimitSearchShape(t, 0);
    ComparatorDoesNotParse('>');
    var limit := LimitSearch(t, 0);
    if limit.Some? {
      ComparatorDoesNotParse(limit.value.0);
    }
  }
}
