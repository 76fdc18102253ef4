/**
  A worked example: four OCR fragments that form the haemoglobin row
  `HB | 8.0 | g/dl | 12-16`, run through the whole pipeline.
*/
module Scenarios {
  import opened Optional
  import opened Text
  import opened Patterns
  import opened Rows
  import opened Parsers
  import opened Classifier
  import Noise
  import Pipeline
  import Config

  /** A fragment at horizontal position `x0` on the line from y = 100 to y = 120. */
  function Fragment(text: string, x0: int): Entry {
    Dict(Some(text), Some([x0, 100, x0 + 40, 120]))
  }

  /** Four fragments side by side. */
  function FourCells(name: string, value: string, unit: string, range: string): seq<Entry> {
    [Fragment(name, 10), Fragment(value, 100), Fragment(unit, 200), Fragment(range, 300)]
  }

  /** The cells of the example, letter by letter: `HB`, `8.0`, `g/dl`, `12-16`. */
  predicate IsHbText(s: string) {
    |s| == 2 && s[0] == 'H' && s[1] == 'B'
  }

  predicate IsEight(s: string) {
    |s| == 3 && s[0] == '8' && s[1] == '.' && s[2] == '0'
  }

  predicate IsGrams(s: string) {
    |s| == 4 && s[0] == 'g' && s[1] == '/' && s[2] == 'd' && s[3] == 'l'
  }

  predicate IsTwelveSixteen(s: string) {
    |s| == 5 && s[0] == '1' && s[1] == '2' && s[2] == '-' && s[3] == '1' && s[4] == '6'
  }

  predicate IsHb(name: string, value: string, unit: string, range: string) {
    IsHbText(name) && IsEight(value) && IsGrams(unit) && IsTwelveSixteen(range)
  }

  predicate Unpadded(s: string) {
    s != [] && !IsSpace(s[0]) && !IsSpace(s[|s| - 1])
  }

  lemma HbCells(name: string, value: string, unit: string, range: string)
    requires IsHb(name, value, unit, range)
    ensures var cells := Cells(FourCells(name, value, unit, range));
      |cells| == 4 && cells[1] == value && cells[2] == unit && cells[3] == range
  {
    assert Unpadded(value) && Unpadded(unit) && Unpadded(range);
    StrippedCells(name, value, unit, range);
  }

  lemma StrippedCells(name: string, value: string, unit: string, range: string)
    requires Unpadded(value) && Unpadded(unit) && Unpadded(range)
    ensures var cells := Cells(FourCells(name, value, unit, range));
      |cells| == 4 && cells[1] == value && cells[2] == unit && cells[3] == range
  {
    StripUnpadded(value);
    StripUnpadded(unit);
    StripUnpadded(range);
  }

  /** A text of one word, with no unit separator, splits into that word alone. */
  lemma OneWord(s: string)
    requires s != [] && forall i | 0 <= i < |s| :: !IsUnitSeparator(s[i])
    ensures Split(s, IsUnitSeparator) == [s]
  {
    SpanUntilAll(s, 0);
  }

  lemma {:induction false} SpanUntilAll(s: string, p: nat)
    requires p <= |s|
    requires forall i | p <= i < |s| :: !IsUnitSeparator(s[i])
    ensures SpanUntil(s, p, IsUnitSeparator) == |s| - p
    decreases |s| - p
  {
    if p < |s| {
      SpanUntilAll(s, p + 1);
    }
  }

  /** A word without unit punctuation at either end is its own cleaned form. */
  lemma CleanUnpadded(s: string)
    requires s != [] && !IsUnitPunctuation(s[0]) && !IsUnitPunctuation(s[|s| - 1])
    ensures Clean(s) == s
  {
    assert TrimStart(s, IsUnitPunctuation) == s;
  }

  lemma EightIsValue(s: string)
    requires s == "8.0"
    ensures Qualifies(ValueRole, s)
  {
    StripUnpadded(s);
    PlausibleValueCases(s);
    assert IsDigit(s[0]);
  }

  /** A number such as `8.0` or `12-16` holds no unit. */
  lemma NoUnitIn(s: string)
    requires s != [] && IsDigit(s[0]) && IsDigit(s[|s| - 1])
    requires forall i | 0 <= i < |s| :: IsDigit(s[i]) || s[i] == '.' || s[i] == '-'
    ensures UnitOf(s) == None
  {
    OneWord(s);
    CleanUnpadded(s);
    assert Lower(s) == s;
    assert s[0] != "%"[0] && s[0] != "pg"[0] && s[0] != "fl"[0];
    NotUnitWord(s);
  }

  lemma GramsQualifiesForNothing(s: string)
    requires s == "g/dl"
    ensures !Qualifies(UnitRole, s) && !Qualifies(RangeRole, s)
  {
    GramsPerDecilitreIsNoUnit();
    GramsIsNoRange(s);
  }

  lemma GramsIsNoRange(s: string)
    requires |s| == 4 && s[0] == 'g' && s[1] == '/' && s[2] == 'd' && s[3] == 'l'
    ensures !LooksLikeRange(s)
  {
    StripUnpadded(s);
    LooksLikeRangeIff(s);
    assert forall i | 0 <= i < |s| :: !IsDigit(s[i]) && !IsComparator(s[i]) && !IsDash(s[i]);
  }

  lemma RangeTextIsRangeOnly(s: string)
    requires s == "12-16"
    ensures !Qualifies(UnitRole, s) && Qualifies(RangeRole, s)
  {
    NoUnitIn(s);
    StripUnpadded(s);
    LooksLikeRangeIff(s);
    assert IsDash(s[2]) && IsDigit(s[0]);
  }

  lemma HbColumns(name: string, value: string, unit: string, range: string)
    requires IsHb(name, value, unit, range)
    ensures var row := FourCells(name, value, unit, range);
      ValueCol(row) == Some(1) && UnitCol(row) == None && RangeCol(row) == Some(3)
  {
    HbCells(name, value, unit, range);
    EightFacts(value);
    GramsFacts(unit);
    RangeFacts(range);
    ColumnsFromCells(FourCells(name, value, unit, range));
  }

  /** The columns of a four-cell row whose second cell can only be a value,
      third cell nothing and fourth cell only a range. */
  lemma ColumnsFromCells(row: seq<Entry>)
    requires |row| == 4
    requires var cells := Cells(row);
      Qualifies(ValueRole, cells[1])
      && !Qualifies(UnitRole, cells[2]) && !Qualifies(RangeRole, cells[2])
      && !Qualifies(UnitRole, cells[3]) && Qualifies(RangeRole, cells[3])
    ensures ValueCol(row) == Some(1) && UnitCol(row) == None && RangeCol(row) == Some(3)
  {
    MarksFromCells(row);
    ColumnsFromMarks(row);
  }

  lemma MarksFromCells(row: seq<Entry>)
    requires |row| == 4
    requires var cells := Cells(row);
      Qualifies(ValueRole, cells[1])
      && !Qualifies(UnitRole, cells[2]) && !Qualifies(RangeRole, cells[2])
      && !Qualifies(UnitRole, cells[3]) && Qualifies(RangeRole, cells[3])
    ensures var cells := Cells(row);
      var mv, mu, mr := Marks(cells, ValueRole), Marks(cells, UnitRole), Marks(cells, RangeRole);
      mv[1] && !mu[2] && !mr[2] && !mu[3] && mr[3]
  {
    var cells := Cells(row);
    MarksAt(cells, ValueRole, 1);
    MarksAt(cells, UnitRole, 2);
    MarksAt(cells, RangeRole, 2);
    MarksAt(cells, UnitRole, 3);
    MarksAt(cells, RangeRole, 3);
  }

  lemma ColumnsFromMarks(row: seq<Entry>)
    requires |row| == 4
    requires var cells := Cells(row);
      var mv, mu, mr := Marks(cells, ValueRole), Marks(cells, UnitRole), Marks(cells, RangeRole);
      mv[1] && !mu[2] && !mr[2] && !mu[3] && mr[3]
    ensures ValueCol(row) == Some(1) && UnitCol(row) == None && RangeCol(row) == Some(3)
  {
    var cells := Cells(row);
    ClaimedColumns(Marks(cells, ValueRole), Marks(cells, UnitRole), Marks(cells, RangeRole));
    assert Taken(ValueCol(row)) + Taken(UnitCol(row)) == {1};
  }

  /** Value in the second cell, nothing in the third, range in the fourth. */
  lemma ClaimedColumns(value: seq<bool>, unit: seq<bool>, range: seq<bool>)
    requires |value| == |unit| == |range| == 4 && value[1]
    requires !unit[2] && !range[2] && !unit[3] && range[3]
    ensures FirstCol(value, 1, {}) == Some(1)
    ensures FirstCol(unit, 1, {1}) == None
    ensures FirstCol(range, 1, {1}) == Some(3)
  {
    assert FirstCol(unit, 4, {1}) == None;
    assert FirstCol(unit, 3, {1}) == None;
    assert FirstCol(unit, 2, {1}) == None;
    assert FirstCol(range, 3, {1}) == Some(3);
    assert FirstCol(range, 2, {1}) == Some(3);
  }

  lemma EightParses(s: string)
    requires s == "8.0"
    ensures ParseNumeric(s) == Some(8.0)
  {
    assert RemoveCommas(s[2..]) == s[2..];
    assert RemoveCommas(s[1..]) == s[1..];
    assert RemoveCommas(s) == s;
    StripUnpadded(s);
    assert Span(s, 0, IsDigit) == 1;
    assert Span(s, 2, IsDigit) == 1;
    assert NumberLen(s, 0) == 3;
    assert ValueSearch(s, 0) == Some(s);
    assert DigitsValue(s[..1]) == 8;
    assert DigitsValue(s[2..]) == 0;
  }

  lemma RangeBounds(s: string)
    requires s == "12-16"
    ensures ParseRangeBounds(s) == (Some(12.0), Some(16.0))
  {
    StripUnpadded(s);
    assert Span(s, 2, IsDigit) == 0;
    assert Span(s, 1, IsDigit) == 1;
    assert Span(s, 0, IsDigit) == 2;
    assert NumberLen(s, 0) == 2;
    assert Span(s, 2, IsSpace) == 0;
    assert Span(s, 3, IsSpace) == 0;
    assert Span(s, 5, IsDigit) == 0;
    assert Span(s, 4, IsDigit) == 1;
    assert Span(s, 3, IsDigit) == 2;
    assert NumberLen(s, 3) == 2;
    var low, high := s[..2], s[3..];
    assert RangeSearch(s, 0) == Some((low, high));
    TwoDigits(low);
    TwoDigits(high);
  }

  /** `float` of a two-digit number. */
  lemma TwoDigits(g: string)
    requires |g| == 2 && IsDigit(g[0]) && IsDigit(g[1])
    ensures ToFloat(g) == Some((10 * DigitValue(g[0]) + DigitValue(g[1])) as real)
  {
    assert Span(g, 2, IsDigit) == 0;
    assert Span(g, 1, IsDigit) == 1;
    assert Span(g, 0, IsDigit) == 2;
    assert g[..1][..0] == [];
    assert DigitsValue(g[..1]) == DigitValue(g[0]);
  }

  lemma HbName(s: string)
    requires s == "HB"
    ensures CleanName(s) == s
  {
    StripUnpadded(s);
    var u := Upper(s);
    assert u == s;
    assert !IsNameSuffix(u[1]);
    StripUnpadded(u);
  }

  lemma HbRecordOf(name: string, value: string, unit: string, range: string)
    requires IsHb(name, value, unit, range)
    ensures Extract(FourCells(name, value, unit, range)) == Some(LabTest(name, Numeric(8.0), None, Some(range), Some(true)))
  {
    HbRowFacts(name, value, unit, range);
    EightReadsBack();
    RecordFromColumns(FourCells(name, value, unit, range), 8.0, 8.0, 12.0, 16.0);
  }

  /** `str(8.0)` is `8.0`, which reads back as 8. */
  lemma EightReadsBack()
    ensures Reparsed(8.0) == 8.0
  {
    ReparsedCases(8.0);
  }

  /** What the haemoglobin row offers `RecordFromColumns`. */
  lemma HbRowFacts(name: string, value: string, unit: string, range: string)
    requires IsHb(name, value, unit, range)
    ensures var row := FourCells(name, value, unit, range);
      |row| == 4 && TextOf(row[0]) == name && TextOf(row[1]) == value && TextOf(row[3]) == range
      && CleanName(name) == name && |name| >= 2
      && ValueCol(row) == Some(1) && UnitCol(row) == None && RangeCol(row) == Some(3)
      && ParseNumeric(value) == Some(8.0) && UnitOf(value) == None
      && Strip(range) == range != []
      && ParseRangeBounds(range) == (Some(12.0), Some(16.0))
  {
    FourCellsTexts(name, value, unit, range);
    NameFacts(name);
    HbColumns(name, value, unit, range);
    EightFacts(value);
    RangeFacts(range);
  }

  lemma FourCellsTexts(name: string, value: string, unit: string, range: string)
    ensures var row := FourCells(name, value, unit, range);
      |row| == 4 && TextOf(row[0]) == name && TextOf(row[1]) == value
      && TextOf(row[2]) == unit && TextOf(row[3]) == range
  {
  }

  lemma NameFacts(s: string)
    requires IsHbText(s)
    ensures CleanName(s) == s
  {
    assert s == "HB";
    HbName(s);
  }

  lemma EightFacts(s: string)
    requires IsEight(s)
    ensures Qualifies(ValueRole, s) && ParseNumeric(s) == Some(8.0) && UnitOf(s) == None
  {
    NoUnitIn(s);
    assert Qualifies(ValueRole, s) by {
      assert s == "8.0";
      EightIsValue(s);
    }
    assert ParseNumeric(s) == Some(8.0) by {
      assert s == "8.0";
      EightParses(s);
    }
  }

  lemma GramsFacts(s: string)
    requires IsGrams(s)
    ensures !Qualifies(UnitRole, s) && !Qualifies(RangeRole, s)
  {
    assert s == "g/dl";
    GramsQualifiesForNothing(s);
  }

  lemma RangeFacts(s: string)
    requires IsTwelveSixteen(s)
    ensures !Qualifies(UnitRole, s) && Qualifies(RangeRole, s)
    ensures Strip(s) == s && ParseRangeBounds(s) == (Some(12.0), Some(16.0))
  {
    assert s == "12-16";
    RangeTextIsRangeOnly(s);
    StripUnpadded(s);
    RangeBounds(s);
  }

  /** The record of a row whose value column is the second cell, holding the
      number `x`, read back from its `str` form as `y`, and no unit, whose range column is the fourth cell, reading
      `low - high`, and which has no unit column. */
  lemma RecordFromColumns(row: seq<Entry>, x: real, y: real, low: real, high: real)
    requires |row| == 4
    requires |CleanName(TextOf(row[0]))| >= 2
    requires ValueCol(row) == Some(1) && UnitCol(row) == None && RangeCol(row) == Some(3)
    requires ParseNumeric(TextOf(row[1])) == Some(x) && UnitOf(TextOf(row[1])) == None
    requires Strip(TextOf(row[3])) == TextOf(row[3]) != []
    requires ParseRangeBounds(TextOf(row[3])) == (Some(low), Some(high))
    requires Reparsed(x) == y
    ensures Extract(row) == Some(LabTest(CleanName(TextOf(row[0])), Numeric(x), None, Some(TextOf(row[3])), Some(y < low || y > high)))
  {
    var name, r := CleanName(TextOf(row[0])), TextOf(row[3]);
    ExtractRecord(row);
    assert ValueOf(row) == Some(Numeric(x));
    assert UnitOfRow(row) == None;
    assert RangeOf(row) == Some(r);
    assert FlagFrom(Numeric(x), Some(r)) == Some(y < low || y > high) by {
      FlagFromShape(Numeric(x), Some(r));
    }
    assert Record(row, name) == Some(LabTest(name, Numeric(x), None, Some(r), Some(y < low || y > high)));
  }

  /** The record of the haemoglobin row: the value 8.0 is below the range
      12-16, so the test is out of range; `g/dl` claims no column and no unit
      is reported. */
  lemma HbRecord()
    ensures Extract(FourCells("HB", "8.0", "g/dl", "12-16"))
      == Some(LabTest("HB", Numeric(8.0), None, Some("12-16"), Some(true)))
  {
    HbRecordOf("HB", "8.0", "g/dl", "12-16");
  }

  // ---------------------------------------------------------------------
  // The row is no noise

  /** The characters of the lower-cased haemoglobin row. */
  predicate HbRowChar(c: char) {
    c == 'h' || c == 'b' || c == ' ' || c == '8' || c == '.' || c == '0' || c == 'g'
    || c == '/' || c == 'd' || c == 'l' || c == '1' || c == '2' || c == '-' || c == '6'
  }

  /** Each noise keyword has, among its first two letters, one that the row lacks. */
  lemma KeywordsAvoidHbRow()
    ensures forall k | 0 <= k < |Config.NoiseKeywords| ::
      |Config.NoiseKeywords[k]| >= 2
      && (!HbRowChar(Config.NoiseKeywords[k][0]) || !HbRowChar(Config.NoiseKeywords[k][1]))
  {
  }

  lemma LowerCellChars(s: string)
    requires s == "HB" || s == "8.0" || s == "g/dl" || s == "12-16"
    ensures forall j | 0 <= j < |Lower(s)| :: HbRowChar(Lower(s)[j])
  {
  }

  lemma HbRowText(name: string, value: string, unit: string, range: string)
    requires IsHb(name, value, unit, range)
    ensures forall c | c in Noise.RowTextLower(FourCells(name, value, unit, range)) :: HbRowChar(c)
  {
    var row := FourCells(name, value, unit, range);
    var parts := seq(|row|, i requires 0 <= i < |row| => Lower(TextOf(row[i])));
    assert Noise.RowTextLower(row) == Join(" ", parts);
    forall c | c in Join(" ", parts) ensures HbRowChar(c) {
      JoinChars(" ", parts, c);
      if c !in " " {
        var i :| 0 <= i < |parts| && c in parts[i];
        assert TextOf(row[i]) in [name, value, unit, range];
        LowerCellChars(TextOf(row[i]));
      }
    }
  }

  lemma HbRowIsNoNoise(name: string, value: string, unit: string, range: string)
    requires IsHb(name, value, unit, range)
    ensures !Noise.IsNoiseRow(FourCells(name, value, unit, range))
  {
    var row := FourCells(name, value, unit, range);
    assert !Noise.HasNoiseKeyword(row) by { HbRowHasNoKeyword(name, value, unit, range); }
    assert !Noise.BadFirstCell(Strip(TextOf(row[0]))) by { HbFirstCell(name); }
    KeptRow(row);
  }

  lemma HbFirstCell(s: string)
    requires s == "HB"
    ensures !Noise.BadFirstCell(Strip(s))
  {
    StripUnpadded(s);
    assert |s| == 2 && s[0] == 'H';
    assert !IsAllDigits(s) by { assert !IsDigit(s[0]); }
  }

  /** A row without keywords whose first cell is well formed is kept. */
  lemma KeptRow(row: seq<Entry>)
    requires |row| > 0 && !Noise.HasNoiseKeyword(row) && !Noise.BadFirstCell(Strip(TextOf(row[0])))
    ensures !Noise.IsNoiseRow(row)
  {
  }

  lemma HbRowHasNoKeyword(name: string, value: string, unit: string, range: string)
    requires IsHb(name, value, unit, range)
    ensures !Noise.HasNoiseKeyword(FourCells(name, value, unit, range))
  {
    var t := Noise.RowTextLower(FourCells(name, value, unit, range));
    HbRowText(name, value, unit, range);
    KeywordsAvoidHbRow();
    forall k | 0 <= k < |Config.NoiseKeywords| ensures !Contains(t, Config.NoiseKeywords[k]) {
      var w := Config.NoiseKeywords[k];
      var j := if !HbRowChar(w[0]) then 0 else 1;
      MissingCharNotContained(t, w, j);
    }
  }

  // ---------------------------------------------------------------------
  // The whole pipeline

  /** Four fragments on one line, given left to right, make one row. */
  lemma FourCellsGrouped(name: string, value: string, unit: string, range: string)
    ensures Grouped(FourCells(name, value, unit, range)) == [FourCells(name, value, unit, range)]
  {
    var row := FourCells(name, value, unit, range);
    FourCellsLines(row);
    FourCellsSorted(row);
    FourCellsOneRow(row);
    GroupedOneRow(row);
  }

  /** A list of well-formed fragments, ordered top to bottom and left to
      right, whose sweep yields one row, is grouped into that one row. */
  lemma GroupedOneRow(row: seq<Entry>)
    requires Lines(row) == row && Sorting.SortBy(row, Y0) == row && Segments(row) == [row]
    requires Sorting.SortBy(row, X0) == row
    ensures Grouped(row) == [row]
  {
    assert SortRows([row])[0] == row;
  }

  lemma FourCellsLines(row: seq<Entry>)
    requires exists a, b, c, d :: row == FourCells(a, b, c, d)
    ensures Lines(row) == row
  {
    LinesOfLines(row);
  }

  lemma FourCellsSorted(row: seq<Entry>)
    requires exists a, b, c, d :: row == FourCells(a, b, c, d)
    ensures Sorting.SortBy(row, Y0) == row && Sorting.SortBy(row, X0) == row
  {
    var a, b, c, d :| row == FourCells(a, b, c, d);
    FragmentKeys(a, 10);
    FragmentKeys(b, 100);
    FragmentKeys(c, 200);
    FragmentKeys(d, 300);
    SortedFour(row, Y0);
    SortedFour(row, X0);
  }

  lemma FragmentKeys(text: string, x0: int)
    ensures Y0(Fragment(text, x0)) == 100 && X0(Fragment(text, x0)) == x0
  {
  }

  /** Four entries already in key order are left as they are by the sort. */
  lemma SortedFour(s: seq<Entry>, key: Entry -> int)
    requires |s| == 4 && key(s[0]) <= key(s[1]) <= key(s[2]) <= key(s[3])
    ensures Sorting.SortBy(s, key) == s
  {
    InOrder(s, key);
    Sorting.SortBySorted(s, key);
  }

  lemma InOrder(s: seq<Entry>, key: Entry -> int)
    requires |s| == 4 && key(s[0]) <= key(s[1]) <= key(s[2]) <= key(s[3])
    ensures Sorting.SortedBy(s, key)
  {
    forall i, j | 0 <= i < j < |s| ensures key(s[i]) <= key(s[j]) {
      if i == 0 {
        assert key(s[0]) <= key(s[j]);
      } else if i == 1 {
        assert key(s[1]) <= key(s[j]);
      }
    }
  }

  lemma FourCellsOneRow(row: seq<Entry>)
    requires exists a, b, c, d :: row == FourCells(a, b, c, d)
    ensures Segments(row) == [row]
  {
    OneRow(row);
  }

  /** A list that groups into one row, kept and yielding a record, gives that record alone. */
  lemma ProcessOneRow(row: seq<Entry>, rec: LabTest)
    requires |row| >= 2 && Grouped(row) == [row]
    requires !Noise.IsNoiseRow(row) && Extract(row) == Some(rec)
    ensures Pipeline.Process(Pipeline.Items(row)) == [rec]
  {
    assert Pipeline.RowTest(row) == Some(rec);
    ExtractAllOne(row, rec);
  }

  lemma ExtractAllOne(row: seq<Entry>, rec: LabTest)
    requires Pipeline.RowTest(row) == Some(rec)
    ensures Pipeline.ExtractAll([row]) == [rec]
  {
    ExtractAllSingle(row);
  }

  lemma ExtractAllSingle(row: seq<Entry>)
    ensures var t := Pipeline.RowTest(row);
      Pipeline.ExtractAll([row]) == if t.Some? then [t.value] else []
  {
    Pipeline.ExtractAllStep([row], 0);
    assert [row][..1] == [row] && [row][..0] == [];
  }

  lemma HbProcessOf(name: string, value: string, unit: string, range: string)
    requires IsHb(name, value, unit, range)
    ensures Pipeline.Process(Pipeline.Items(FourCells(name, value, unit, range)))
      == [LabTest(name, Numeric(8.0), None, Some(range), Some(true))]
  {
    var row := FourCells(name, value, unit, range);
    FourCellsGrouped(name, value, unit, range);
    HbRowIsNoNoise(name, value, unit, range);
    HbRecordOf(name, value, unit, range);
    ProcessOneRow(row, LabTest(name, Numeric(8.0), None, Some(range), Some(true)));
  }

  /** The haemoglobin fragments yield exactly one record, the one above. */
  lemma HbProcess()
    ensures Pipeline.Process(Pipeline.Items(FourCells("HB", "8.0", "g/dl", "12-16")))
      == [LabTest("HB", Numeric(8.0), None, Some("12-16"), Some(true))]
  {
    HbProcessOf("HB", "8.0", "g/dl", "12-16");
  }
}
