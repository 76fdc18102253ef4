/**
  The noise filter `_is_noise_row` (extractor.py:65-80): header, footer and
  patient-detail rows are recognised by keywords, with a whitelist of test
  abbreviations, and by the shape of the first cell.
*/
module Noise {
  import opened Optional
  import opened Text
  import opened Rows
  import Parsers
  import Config

  /** The row's texts, lower-cased and joined by single spaces (extractor.py:66). */
  function RowTextLower(row: seq<Entry>): string {
    Join(" ", seq(|row|, i requires 0 <= i < |row| => Lower(TextOf(row[i]))))
  }

  /** Some noise keyword is a substring of the joined row text (extractor.py:67). */
  predicate HasNoiseKeyword(row: seq<Entry>) {
    exists k | 0 <= k < |Config.NoiseKeywords| :: Contains(RowTextLower(row), Config.NoiseKeywords[k])
  }

  /** The first cell is too short, a bare number, or starts with `:`, `*` or
      `.` (extractor.py:74-78). */
  predicate BadFirstCell(first: string) {
    (|first| < 2 && Upper(first) != "HB")
    || IsAllDigits(first)
    || (|first| > 0 && (first[0] == ':' || first[0] == '*' || first[0] == '.'))
  }

  /** `_is_noise_row` (extractor.py:65-80). The caller only passes rows of at
      least two fragments; an empty row would fail at `row[0]`. */
  predicate IsNoiseRow(row: seq<Entry>)
    requires |row| > 0
  {
    if HasNoiseKeyword(row) && Upper(Strip(TextOf(row[0]))) !in Config.Abbreviations then true
    else if HasNoiseKeyword(row) && (|row| < 2 || !Parsers.IsPlausibleValue(TextOf(row[1]))) then true
    else BadFirstCell(Strip(TextOf(row[0])))
  }

  /** The first-cell tests reject a row whatever its keywords: a trimmed first
      text shorter than two characters, all digits, or starting with `:`, `*`
      or `.`. */
  lemma BadFirstCellIsNoise(row: seq<Entry>)
    requires |row| > 0
    ensures var first := Strip(TextOf(row[0]));
      (|first| < 2 || IsAllDigits(first)
       || (|first| > 0 && (first[0] == ':' || first[0] == '*' || first[0] == '.')))
      ==> IsNoiseRow(row)
  {
    var first := Strip(TextOf(row[0]));
    if |first| < 2 {
      assert |Upper(first)| < 2;
      assert Upper(first) != "HB";
    }
  }

  /** A keyword anywhere in the row rejects it unless the first cell is a
      whitelisted test abbreviation. */
  lemma KeywordRowIsNoise(row: seq<Entry>)
    requires |row| > 0
    requires HasNoiseKeyword(row)
    ensures Upper(Strip(TextOf(row[0]))) !in Config.Abbreviations ==> IsNoiseRow(row)
  {
  }

  /** A first cell whose upper-case form is a test abbreviation begins with a
      letter and has at least two characters. */
  lemma AbbreviationShape(first: string)
    requires Upper(first) in Config.Abbreviations
    ensures |first| >= 2 && ('a' <= first[0] <= 'z' || 'A' <= first[0] <= 'Z')
  {
    var a := Upper(first);
    assert forall w | w in Config.Abbreviations :: |w| >= 2 && 'A' <= w[0] <= 'Z';
    assert a[0] == UpperChar(first[0]);
  }

  /** A row that starts with a whitelisted abbreviation and whose second cell is
      a plausible value is kept, keywords or not. */
  lemma WhitelistedRowIsKept(row: seq<Entry>)
    requires |row| >= 2
    requires Upper(Strip(TextOf(row[0]))) in Config.Abbreviations
    requires Parsers.IsPlausibleValue(TextOf(row[1]))
    ensures !IsNoiseRow(row)
  {
    AbbreviationIsGoodFirstCell(Strip(TextOf(row[0])));
  }

  /** A whitelisted abbreviation passes the first-cell tests. */
  lemma AbbreviationIsGoodFirstCell(first: string)
    requires Upper(first) in Config.Abbreviations
    ensures !BadFirstCell(first)
  {
    AbbreviationShape(first);
    assert !IsDigit(first[0]);
    assert !IsAllDigits(first);
  }

  /** Which rows are noise, as a whole: a row is noise exactly when its first
      cell is malformed, or it mentions a keyword and either its first cell is
      no whitelisted abbreviation or its second cell is no plausible value. */
  lemma NoiseRowIff(row: seq<Entry>)
    requires |row| > 0
    ensures var first := Strip(TextOf(row[0]));
      IsNoiseRow(row) <==>
        (|first| < 2 || IsAllDigits(first) || (|first| > 0 && (first[0] == ':' || first[0] == '*' || first[0] == '.')))
        || (HasNoiseKeyword(row)
            && (Upper(first) !in Config.Abbreviations || |row| < 2 || !Parsers.IsPlausibleValue(TextOf(row[1]))))
  {
    BadFirstCellIsNoise(row);
  }

  /** Keywords are matched as substrings, so a test whose name contains `id`
      is dropped: a `Uric Acid` row with a value is noise, and `URIC ACID` is
      no whitelisted abbreviation. */
  lemma UricAcidRowIsNoise()
    ensures IsNoiseRow([Dict(Some("Uric Acid"), Some([10, 100, 80, 120])), Dict(Some("5.0"), Some([200, 100, 240, 120]))])
  {
    var row := [Dict(Some("Uric Acid"), Some([10, 100, 80, 120])), Dict(Some("5.0"), Some([200, 100, 240, 120]))];
    UricAcidRowText(row);
    var t := RowTextLower(row);
    assert t[7..9] == "id";
    ContainsAt(t, "id", 7);
    assert Config.NoiseKeywords[14] == "id";
    assert HasNoiseKeyword(row);
    UricAcidNotWhitelisted();
  }

  lemma UricAcidRowText(row: seq<Entry>)
    requires row == [Dict(Some("Uric Acid"), Some([10, 100, 80, 120])), Dict(Some("5.0"), Some([200, 100, 240, 120]))]
    ensures RowTextLower(row) == "uric acid 5.0"
  {
    var parts := seq(|row|, i requires 0 <= i < |row| => Lower(TextOf(row[i])));
    assert Lower("Uric Acid") == "uric acid";
    assert Lower("5.0") == "5.0";
    assert parts == ["uric acid", "5.0"];
    assert parts[1..] == ["5.0"];
    assert Join(" ", parts[1..]) == "5.0";
    assert Join(" ", parts) == parts[0] + " " + Join(" ", parts[1..]);
  }

  lemma UricAcidNotWhitelisted()
    ensures Upper(Strip("Uric Acid")) !in Config.Abbreviations
  {
    StripUnpadded("Uric Acid");
    LongNoAbbreviation(Upper("Uric Acid"));
  }

  lemma LongNoAbbreviation(s: string)
    requires |s| > 4
    ensures s !in Config.Abbreviations
  {
    assert forall w | w in Config.Abbreviations :: |w| <= 4;
  }

  lemma {:induction false} ContainsAt(s: string, k: string, i: nat)
    requires i + |k| <= |s| && s[i..i + |k|] == k
    ensures Contains(s, k)
    decreases i
  {
    if i == 0 {
      assert k <= s;
    } else {
      assert s[1..][i - 1..i - 1 + |k|] == k;
      ContainsAt(s[1..], k, i - 1);
    }
  }
}
