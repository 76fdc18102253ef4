/**
  Column classification and record building, `_extract_test_from_row`
  (extractor.py:82-138): the first cell is the test name; one left-to-right
  pass over the other cells lets each cell claim at most one role, value
  before unit before range, the first qualifying cell winning each role.
*/
module Classifier {
  import opened Optional
  import opened Text
  import opened Rows
  import Parsers
  import Patterns

  /**
    The test value as the source stores it: `str(num_val)` when the value text
    holds a number, otherwise the stripped text itself. The number is kept
    instead of its `str` rendering; `Reparsed` says what reading that
    rendering back gives.
  */
  datatype Value = Numeric(number: real) | Verbatim(text: string)

  /** The dictionary `_extract_test_from_row` returns once it has a name and a value. */
  datatype LabTest = LabTest(
    testName: string,
    testValue: Value,
    testUnit: Option<string>,
    bioReferenceRange: Option<string>,
    labTestOutOfRange: Option<bool>)

  /** The three roles a cell can claim, in priority order. */
  datatype Role = ValueRole | UnitRole | RangeRole

  // ---------------------------------------------------------------------
  // The test name

  predicate IsNameSuffix(c: char) {
    c == ':' || c == '*' || c == '.' || c == '-'
  }

  /** extractor.py:86-87: strip, upper-case, remove one trailing `:`, `*`, `.`
      or `-` (the pattern `[:*.-]$`), strip again. */
  function CleanName(text: string): string {
    var u := Upper(Strip(text));
    var d := if u != [] && IsNameSuffix(u[|u| - 1]) then u[..|u| - 1] else u;
    Strip(d)
  }

  lemma UpperIdempotent(s: string)
    ensures Upper(Upper(s)) == Upper(s)
  {
  }

  /** Upper-casing commutes with taking a slice. */
  lemma UpperSlice(s: string, i: nat, j: nat)
    requires i <= j <= |s|
    ensures Upper(s[i..j]) == Upper(s)[i..j]
  {
  }

  /** Stripping an upper-case text leaves it upper-case. */
  lemma StripKeepsUpper(s: string)
    requires Upper(s) == s
    ensures Upper(Strip(s)) == Strip(s)
  {
    var l := TrimStart(s, IsSpace);
    var r := TrimEnd(l, IsSpace);
    UpperSlice(s, |s| - |l|, |s|);
    UpperSlice(l, 0, |r|);
  }

  /** The cleaned name is upper-case and has no white space at either end;
      it is never longer than the text it comes from. */
  lemma CleanNameNormal(text: string)
    ensures Upper(CleanName(text)) == CleanName(text)
    ensures Strip(CleanName(text)) == CleanName(text)
    ensures |CleanName(text)| <= |text|
  {
    var s := Strip(text);
    var u := Upper(s);
    var d := if u != [] && IsNameSuffix(u[|u| - 1]) then u[..|u| - 1] else u;
    CleanNameIs(text, d);
    DesuffixedIsUpper(s, d);
    StripNormal(d);
  }

  /** The cleaned name is the stripped, de-suffixed, upper-cased stripped
      text, and that intermediate text is no longer than the input. */
  lemma CleanNameIs(text: string, d: string)
    requires var u := Upper(Strip(text));
      d == if u != [] && IsNameSuffix(u[|u| - 1]) then u[..|u| - 1] else u
    ensures CleanName(text) == Strip(d) && |d| <= |text|
  {
  }

  /** Stripping an upper-case text gives an upper-case, stripped, no longer text. */
  lemma StripNormal(d: string)
    requires Upper(d) == d
    ensures Upper(Strip(d)) == Strip(d) && Strip(Strip(d)) == Strip(d) && |Strip(d)| <= |d|
  {
    StripKeepsUpper(d);
    StripIdempotent(d);
  }

  /** Dropping the last character of an upper-cased text keeps it upper-case. */
  lemma DesuffixedIsUpper(s: string, d: string)
    requires var u := Upper(s); d == u || (u != [] && d == u[..|u| - 1])
    ensures Upper(d) == d
  {
    var u := Upper(s);
    UpperIdempotent(s);
    if d != u {
      UpperSlice(u, 0, |u| - 1);
    }
  }

  // ---------------------------------------------------------------------
  // Column roles

  /** The stripped text of every cell (extractor.py:96). */
  function Cells(row: seq<Entry>): (cells: seq<string>)
    ensures |cells| == |row|
  {
    seq(|row|, i requires 0 <= i < |row| => Strip(TextOf(row[i])))
  }

  /** A truthy result of `_find_unit`: a word was found and it is not empty. */
  predicate FoundUnit(u: Option<string>) {
    u.Some? && u.value != []
  }

  /** The test a non-empty stripped cell text must pass to claim `role`
      (extractor.py:99, 103-104, 108). */
  predicate Qualifies(role: Role, text: string) {
    text != [] &&
    match role
    case ValueRole => Parsers.IsPlausibleValue(text)
    case UnitRole =>
      var u := Parsers.UnitOf(text);
      FoundUnit(u) && (|text| < 10 || Lower(text) == Lower(u.value))
    case RangeRole => Parsers.LooksLikeRange(text)
  }

  /** Which cells qualify for `role`, cell by cell. */
  function Marks(cells: seq<string>, role: Role): (m: seq<bool>)
    ensures |m| == |cells|
    decreases |cells|
  {
    if cells == [] then [] else Marks(cells[..|cells| - 1], role) + [Qualifies(role, cells[|cells| - 1])]
  }

  /** Cell `k` is marked for `role` exactly when it qualifies. */
  lemma {:induction false} MarksAt(cells: seq<string>, role: Role, k: nat)
    requires k < |cells|
    ensures Marks(cells, role)[k] <==> Qualifies(role, cells[k])
    decreases |cells|
  {
    if k < |cells| - 1 {
      MarksAt(cells[..|cells| - 1], role, k);
    }
  }

  /** Only a non-empty cell is marked. */
  lemma MarkedIsNonEmpty(cells: seq<string>, role: Role, k: nat)
    requires k < |cells| && Marks(cells, role)[k]
    ensures cells[k] != []
  {
    MarksAt(cells, role, k);
  }

  /** The first index at or after `i`, outside `taken`, whose cell is marked. */
  function FirstCol(marks: seq<bool>, i: nat, taken: set<nat>): (r: Option<nat>)
    ensures r.Some? ==>
      i <= r.value < |marks| && r.value !in taken && marks[r.value]
      && forall j | i <= j < r.value :: j in taken || !marks[j]
    ensures r.None? ==> forall j | i <= j < |marks| :: j in taken || !marks[j]
    decreases |marks| - i
  {
    if i >= |marks| then None
    else if i !in taken && marks[i] then Some(i)
    else FirstCol(marks, i + 1, taken)
  }

  function Taken(c: Option<nat>): set<nat> {
    if c.Some? then {c.value} else {}
  }

  /** The value column: the first non-empty cell after the name that is a plausible value. */
  function ValueCol(row: seq<Entry>): Option<nat> {
    FirstCol(Marks(Cells(row), ValueRole), 1, {})
  }

  /** The unit column: the first qualifying cell other than the value column. */
  function UnitCol(row: seq<Entry>): Option<nat> {
    FirstCol(Marks(Cells(row), UnitRole), 1, Taken(ValueCol(row)))
  }

  /** The range column: the first qualifying cell that claimed neither value nor unit. */
  function RangeCol(row: seq<Entry>): Option<nat> {
    FirstCol(Marks(Cells(row), RangeRole), 1, Taken(ValueCol(row)) + Taken(UnitCol(row)))
  }

  /** The claimed columns are distinct cells after the name, and each is the
      first cell after the name that qualifies for its role and was not
      claimed by a role of higher priority. */
  lemma ColumnsDistinct(row: seq<Entry>)
    ensures var v, u, g := ValueCol(row), UnitCol(row), RangeCol(row);
      (v.Some? ==> 1 <= v.value < |row|)
      && (u.Some? ==> 1 <= u.value < |row| && u != v)
      && (g.Some? ==> 1 <= g.value < |row| && g != v && g != u)
  {
  }

  // ---------------------------------------------------------------------
  // The record

  /**
    `_parse_numeric_value(str(x))`. Python writes a float of magnitude below
    1e-4 or from 1e16 on in exponent form (`2e-05`, `1.5e+16`); the value
    pattern then reads only the digits before the `e`, that is the magnitude
    scaled into [1, 10). Any other float is written out as a decimal and read
    back as its magnitude (the pattern skips a minus sign).
  */
  function Reparsed(x: real): real {
    var a := if x < 0.0 then -x else x;
    if a == 0.0 || 0.0001 <= a < 10000000000000000.0 then a
    else if a < 0.0001 then Patterns.ScaleUp(a)
    else Patterns.ScaleDown(a)
  }

  /** The number `_parse_numeric_value` reads back from a stored test value
      (extractor.py:129). */
  function NumericOf(v: Value): Option<real> {
    match v
    case Numeric(x) => Some(Reparsed(x))
    case Verbatim(s) => Parsers.ParseNumeric(s)
  }

  /** A number in decimal notation reads back as itself; one in exponent
      notation reads back as its digits before the `e`: scaled by a power of
      ten into [1, 10), and so different from the number itself. */
  lemma ReparsedCases(x: real)
    requires x >= 0.0
    ensures (x == 0.0 || 0.0001 <= x < 10000000000000000.0) ==> Reparsed(x) == x
    ensures 0.0 < x < 0.0001 ==>
      1.0 <= Reparsed(x) < 10.0 && Reparsed(x) == x * Patterns.Pow10(Patterns.UpSteps(x)) as real
      && Reparsed(x) != x
    ensures x >= 10000000000000000.0 ==>
      1.0 <= Reparsed(x) < 10.0 && x == Reparsed(x) * Patterns.Pow10(Patterns.DownSteps(x)) as real
      && Reparsed(x) != x
  {
  }

  /** `0.00002` is stored as `str(2e-05)`, which reads back as 2: against the
      range `0.00001-0.00003` the value inside it is flagged as too high. */
  lemma ReparsedExponentForm()
    ensures Reparsed(0.00002) == 2.0
    ensures OutOfRange(Reparsed(0.00002), Some(0.00001), Some(0.00003)) == Some(true)
    ensures OutOfRange(0.00002, Some(0.00001), Some(0.00003)) == Some(false)
  {
  }

  /** A stored test value is truthy: `str` of a number is never empty. */
  predicate Truthy(v: Value) {
    v.Numeric? || v.text != []
  }

  /** The out-of-range decision of extractor.py:132-135. */
  function OutOfRange(x: real, low: Option<real>, high: Option<real>): (r: Option<bool>)
    ensures r.Some? <==> low.Some? || high.Some?
    ensures r.Some? ==> (r.value <==> (low.Some? && x < low.value) || (high.Some? && x > high.value))
  {
    if low.Some? && high.Some? then Some(x < low.value || x > high.value)
    else if low.Some? then Some(x < low.value)
    else if high.Some? then Some(x > high.value)
    else None
  }

  /** The value stored for the value cell (extractor.py:113-115). */
  function ValueFrom(valueText: string): Value {
    var n := Parsers.ParseNumeric(valueText);
    if n.Some? then Numeric(n.value) else Verbatim(Strip(valueText))
  }

  /** `test_value` before the truthiness test (extractor.py:112-115). */
  function ValueOf(row: seq<Entry>): Option<Value> {
    var v := ValueCol(row);
    ColumnsDistinct(row);
    if v.Some? then Some(ValueFrom(TextOf(row[v.value]))) else None
  }

  /** `test_unit`: the unit column's unit, else a unit inside the value text
      (extractor.py:116-121). */
  function UnitOfRow(row: seq<Entry>): Option<string> {
    var v, u := ValueCol(row), UnitCol(row);
    ColumnsDistinct(row);
    if u.Some? then Parsers.UnitOf(TextOf(row[u.value]))
    else if v.Some? && FoundUnit(Parsers.UnitOf(TextOf(row[v.value]))) then Parsers.UnitOf(TextOf(row[v.value]))
    else None
  }

  /** `bio_reference_range` (extractor.py:123-124). */
  function RangeOf(row: seq<Entry>): Option<string> {
    var g := RangeCol(row);
    ColumnsDistinct(row);
    if g.Some? then Some(Strip(TextOf(row[g.value]))) else None
  }

  /** The flag (extractor.py:128-136). */
  function FlagFrom(value: Value, range: Option<string>): Option<bool> {
    if Truthy(value) && range.Some? && range.value != [] && NumericOf(value).Some? then
      var (low, high) := Parsers.ParseRangeBounds(range.value);
      OutOfRange(NumericOf(value).value, low, high)
    else None
  }

  /** What `_extract_test_from_row` returns; `None` is Python's `None`. */
  function Extract(row: seq<Entry>): Option<LabTest>
    requires |row| > 0
  {
    var name := CleanName(TextOf(row[0]));
    if name == [] || (|name| < 2 && name != "HB") then None
    else Record(row, name)
  }

  /** The record built from the claimed columns once the name is accepted
      (extractor.py:112-138). */
  function Record(row: seq<Entry>, name: string): Option<LabTest> {
    var value := ValueOf(row);
    if value.None? || !Truthy(value.value) then None
    else Some(LabTest(name, value.value, UnitOfRow(row), RangeOf(row), FlagFrom(value.value, RangeOf(row))))
  }

  /** A non-numeric value text holds no digit, so reading a number back from
      the stored stripped text gives nothing either. */
  lemma VerbatimHasNoNumber(valueText: string)
    ensures ValueFrom(valueText).Numeric? <==> HasDigit(valueText)
    ensures ValueFrom(valueText).Verbatim? ==> NumericOf(ValueFrom(valueText)).None?
  {
    Parsers.ParseNumericIffDigit(valueText);
    var t := Strip(valueText);
    StripKeepsDigits(valueText);
    Parsers.ParseNumericIffDigit(t);
  }

  /** The value read from the value column is truthy; it is a number exactly
      when the cell holds a digit, and otherwise the cell's non-blank stripped
      text, from which no number can be read back. */
  lemma ValueOfShape(row: seq<Entry>)
    ensures ValueOf(row).Some? <==> ValueCol(row).Some?
    ensures ValueOf(row).Some? ==>
      ValueCol(row).value < |row|
      && var cell := TextOf(row[ValueCol(row).value]);
         var value := ValueOf(row).value;
         Truthy(value)
         && (value.Numeric? <==> HasDigit(cell))
         && (value.Verbatim? ==> value.text == Strip(cell) && NumericOf(value).None?)
  {
    var v := ValueCol(row);
    ColumnsDistinct(row);
    if v.Some? {
      VerbatimHasNoNumber(TextOf(row[v.value]));
      MarkedIsNonEmpty(Cells(row), ValueRole, v.value);
    }
  }

  /** The range read from the range column is never blank. */
  lemma RangeOfShape(row: seq<Entry>)
    ensures RangeOf(row).Some? ==> RangeOf(row).value != []
  {
    var g := RangeCol(row);
    ColumnsDistinct(row);
    if g.Some? {
      MarkedIsNonEmpty(Cells(row), RangeRole, g.value);
    }
  }

  /** The record of an accepted name. */
  lemma ExtractRecord(row: seq<Entry>)
    requires |row| > 0
    ensures var name := CleanName(TextOf(row[0]));
      Extract(row) == if |name| < 2 then None else Record(row, name)
  {
    var name := CleanName(TextOf(row[0]));
    if |name| < 2 {
      assert name != "HB";
    }
  }

  /** `_extract_test_from_row` gives no record exactly when the cleaned name is
      shorter than two characters or no cell claimed the value. */
  lemma ExtractNoneIff(row: seq<Entry>)
    requires |row| > 0
    ensures Extract(row).None? <==> |CleanName(TextOf(row[0]))| < 2 || ValueCol(row).None?
  {
    ExtractRecord(row);
    ValueOfShape(row);
  }

  /** Every record has an upper-case name of at least two characters and a
      non-blank value taken from the value column: a number exactly when that
      cell holds a digit, otherwise the cell's stripped text. */
  lemma RecordShape(row: seq<Entry>)
    requires |row| > 0
    ensures Extract(row).Some? ==>
      var rec := Extract(row).value;
      |rec.testName| >= 2 && Upper(rec.testName) == rec.testName
      && ValueCol(row).Some? && ValueCol(row).value < |row|
      && var cell := TextOf(row[ValueCol(row).value]);
         (rec.testValue.Numeric? <==> HasDigit(cell))
         && (rec.testValue.Verbatim? ==> rec.testValue.text == Strip(cell) && rec.testValue.text != [])
  {
    ExtractRecord(row);
    CleanNameNormal(TextOf(row[0]));
    ValueOfShape(row);
  }

  /** The flag as `FlagFrom` decides it for a truthy value and a non-blank range. */
  lemma FlagFromShape(value: Value, range: Option<string>)
    requires Truthy(value)
    requires range.Some? ==> range.value != []
    requires value.Verbatim? ==> NumericOf(value).None?
    ensures var flag := FlagFrom(value, range);
      (flag.Some? <==>
        range.Some? && value.Numeric?
        && var b := Parsers.ParseRangeBounds(range.value); b.0.Some? || b.1.Some?)
      && (flag.Some? ==>
        var b := Parsers.ParseRangeBounds(range.value);
        var x := NumericOf(value).value;
        b.1.Some?
        && (flag.value <==> (b.0.Some? && x < b.0.value) || (b.1.Some? && x > b.1.value)))
  {
    if range.Some? {
      Parsers.ParseRangeBoundsCases(range.value);
    }
  }

  /** The out-of-range flag is present only when the record has a reference
      range, its value is a number and at least one bound was read; it then
      says whether the value, as read back from its `str` form (`Reparsed`),
      lies below the low or above the high bound, and
      a bound that was not read is ignored. No low bound is ever read without
      a high one, so a flag always rests on a high bound. */
  lemma FlagSemantics(row: seq<Entry>)
    requires |row| > 0
    ensures Extract(row).Some? ==>
      var rec := Extract(row).value;
      (rec.labTestOutOfRange.Some? <==>
        rec.bioReferenceRange.Some? && rec.testValue.Numeric?
        && var b := Parsers.ParseRangeBounds(rec.bioReferenceRange.value); b.0.Some? || b.1.Some?)
      && (rec.labTestOutOfRange.Some? ==>
        var b := Parsers.ParseRangeBounds(rec.bioReferenceRange.value);
        var x := NumericOf(rec.testValue).value;
        b.1.Some?
        && (rec.labTestOutOfRange.value <==> (b.0.Some? && x < b.0.value) || (b.1.Some? && x > b.1.value)))
  {
    ExtractRecord(row);
    ValueOfShape(row);
    RangeOfShape(row);
    if ValueOf(row).Some? {
      FlagFromShape(ValueOf(row).value, RangeOf(row));
    }
  }

  /** A record's unit is a single word that, cleaned and lower-cased, is `%`,
      `pg` or `fl`: units written with `/`, such as `g/dl`, are never recorded. */
  lemma RecordUnit(row: seq<Entry>)
    requires |row| > 0
    ensures Extract(row).Some? && Extract(row).value.testUnit.Some? ==>
      Lower(Parsers.Clean(Extract(row).value.testUnit.value)) in ["%", "pg", "fl"]
  {
    ExtractRecord(row);
    UnitOfRowShape(row);
  }

  lemma UnitOfRowShape(row: seq<Entry>)
    ensures UnitOfRow(row).Some? ==> Lower(Parsers.Clean(UnitOfRow(row).value)) in ["%", "pg", "fl"]
  {
    var v, u := ValueCol(row), UnitCol(row);
    ColumnsDistinct(row);
    if u.Some? {
      Parsers.UnitOfShape(TextOf(row[u.value]));
    } else if v.Some? {
      Parsers.UnitOfShape(TextOf(row[v.value]));
    }
  }

  /** `potential_*_col` after the cells before `i` were seen: the column if it
      was already claimed, else -1. */
  function Upto(c: Option<nat>, i: nat): int {
    if c.Some? && c.value < i then c.value else -1
  }

  /** One cell of the pass: cell `i` claims `role` exactly when the role is
      still unclaimed, the cell is not taken, and the cell qualifies. */
  lemma FirstColStep(marks: seq<bool>, taken: set<nat>, i: nat)
    requires 1 <= i < |marks|
    ensures var c := FirstCol(marks, 1, taken);
      Upto(c, i + 1) ==
        if Upto(c, i) == -1 && i !in taken && marks[i] then i else Upto(c, i)
  {
  }

  /** Cell `i` of the pass: it claims the value if the value is unclaimed and
      it qualifies; failing that the unit, likewise; failing that the range. */
  lemma ClaimStep(row: seq<Entry>, i: nat)
    requires 1 <= i < |row|
    ensures var t := Strip(TextOf(row[i]));
      var pv, pu, pg := Upto(ValueCol(row), i), Upto(UnitCol(row), i), Upto(RangeCol(row), i);
      var claimsValue := pv == -1 && Qualifies(ValueRole, t);
      var claimsUnit := !claimsValue && pu == -1 && Qualifies(UnitRole, t);
      var claimsRange := !claimsValue && !claimsUnit && pg == -1 && Qualifies(RangeRole, t);
      Upto(ValueCol(row), i + 1) == (if claimsValue then i else pv)
      && Upto(UnitCol(row), i + 1) == (if claimsUnit then i else pu)
      && Upto(RangeCol(row), i + 1) == (if claimsRange then i else pg)
  {
    var cells := Cells(row);
    var v := ValueCol(row);
    var u := UnitCol(row);
    MarksAt(cells, ValueRole, i);
    MarksAt(cells, UnitRole, i);
    MarksAt(cells, RangeRole, i);
    FirstColStep(Marks(cells, ValueRole), {}, i);
    FirstColStep(Marks(cells, UnitRole), Taken(v), i);
    FirstColStep(Marks(cells, RangeRole), Taken(v) + Taken(u), i);
    assert i in Taken(v) <==> Upto(v, i + 1) == i;
    assert i in Taken(u) <==> Upto(u, i + 1) == i;
  }

  /** `potential_*_col` once every cell was seen: the column, or -1. */
  function ColIndex(c: Option<nat>): int {
    if c.Some? then c.value else -1
  }

  /** `_extract_test_from_row` (extractor.py:82-138). */
  method ExtractTestFromRow(row: seq<Entry>) returns (result: Option<LabTest>)
    requires |row| > 0
    ensures result == Extract(row)
  {
    var testNameText := CleanName(TextOf(row[0]));
    if testNameText == [] || (|testNameText| < 2 && testNameText != "HB") {
      return None;
    }
    var potentialValueCol, potentialUnitCol, potentialRangeCol := ClaimColumns(row);
    result := BuildRecord(row, testNameText, potentialValueCol, potentialUnitCol, potentialRangeCol);
  }

  /** The pass over cells 1 to N-1 of extractor.py:91-110. */
  method ClaimColumns(row: seq<Entry>) returns (potentialValueCol: int, potentialUnitCol: int, potentialRangeCol: int)
    requires |row| > 0
    ensures potentialValueCol == ColIndex(ValueCol(row))
    ensures potentialUnitCol == ColIndex(UnitCol(row))
    ensures potentialRangeCol == ColIndex(RangeCol(row))
  {
    potentialValueCol := -1;
    potentialUnitCol := -1;
    potentialRangeCol := -1;
    for i := 1 to |row|
      invariant potentialValueCol == Upto(ValueCol(row), i)
      invariant potentialUnitCol == Upto(UnitCol(row), i)
      invariant potentialRangeCol == Upto(RangeCol(row), i)
    {
      potentialValueCol, potentialUnitCol, potentialRangeCol :=
        ClaimCell(row, i, potentialValueCol, potentialUnitCol, potentialRangeCol);
    }
    ColumnsDistinct(row);
  }

  /** The body of the pass for cell `i` (extractor.py:96-110). */
  method ClaimCell(row: seq<Entry>, i: nat, valueCol: int, unitCol: int, rangeCol: int)
    returns (potentialValueCol: int, potentialUnitCol: int, potentialRangeCol: int)
    requires 1 <= i < |row|
    requires valueCol == Upto(ValueCol(row), i)
    requires unitCol == Upto(UnitCol(row), i)
    requires rangeCol == Upto(RangeCol(row), i)
    ensures potentialValueCol == Upto(ValueCol(row), i + 1)
    ensures potentialUnitCol == Upto(UnitCol(row), i + 1)
    ensures potentialRangeCol == Upto(RangeCol(row), i + 1)
  {
    ClaimStep(row, i);
    potentialValueCol, potentialUnitCol, potentialRangeCol := valueCol, unitCol, rangeCol;
    var text := Strip(TextOf(row[i]));
    if text == [] {
      return;
    }
    if potentialValueCol == -1 && Parsers.IsPlausibleValue(text) {
      potentialValueCol := i;
      return;
    }
    if potentialUnitCol == -1 {
      var unit := Parsers.FindUnit(text);
      if FoundUnit(unit) {
        var again := Parsers.FindUnit(text);
        if |text| < 10 || Lower(text) == Lower(again.value) {
          potentialUnitCol := i;
          return;
        }
      }
    }
    if potentialRangeCol == -1 && Parsers.LooksLikeRange(text) {
      potentialRangeCol := i;
      return;
    }
  }

  /** Filling in the result dictionary from the claimed columns (extractor.py:112-138). */
  method BuildRecord(row: seq<Entry>, testNameText: string, potentialValueCol: int, potentialUnitCol: int, potentialRangeCol: int)
    returns (result: Option<LabTest>)
    requires potentialValueCol == ColIndex(ValueCol(row))
    requires potentialUnitCol == ColIndex(UnitCol(row))
    requires potentialRangeCol == ColIndex(RangeCol(row))
    ensures result == Record(row, testNameText)
  {
    ColumnsDistinct(row);
    var testValue: Option<Value> := None;
    var testUnit: Option<string> := None;
    var bioReferenceRange: Option<string> := None;
    var labTestOutOfRange: Option<bool> := None;
    if potentialValueCol != -1 {
      var valueText := TextOf(row[potentialValueCol]);
      var numVal := Parsers.ParseNumeric(valueText);
      testValue := Some(if numVal.Some? then Numeric(numVal.value) else Verbatim(Strip(valueText)));
      if potentialUnitCol == -1 {
        var unit := Parsers.FindUnit(valueText);
        if FoundUnit(unit) {
          testUnit := unit;
        }
      }
    }
    assert testValue == ValueOf(row);
    if potentialUnitCol != -1 {
      testUnit := Parsers.FindUnit(TextOf(row[potentialUnitCol]));
    }
    assert testUnit == UnitOfRow(row);
    if potentialRangeCol != -1 {
      bioReferenceRange := Some(Strip(TextOf(row[potentialRangeCol])));
    }
    assert bioReferenceRange == RangeOf(row);
    if testValue.None? || !Truthy(testValue.value) {
      assert Record(row, testNameText) == None;
      return None;
    }
    if bioReferenceRange.Some? && bioReferenceRange.value != [] {
      var numericValue := NumericOf(testValue.value);
      if numericValue.Some? {
        var (low, high) := Parsers.ParseRangeBounds(bioReferenceRange.value);
        var isOut := OutOfRange(numericValue.value, low, high);
        if isOut.Some? {
          labTestOutOfRange := isOut;
        }
      }
    }
    assert labTestOutOfRange == FlagFrom(testValue.value, bioReferenceRange);
    assert Record(row, testNameText) == Some(LabTest(testNameText, testValue.value, testUnit, bioReferenceRange, labTestOutOfRange));
    return Some(LabTest(testNameText, testValue.value, testUnit, bioReferenceRange, labTestOutOfRange));
  }
}
