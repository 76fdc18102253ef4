# Lab-report extractor, modelled in Dafny

This project models `LabReportExtractor` from `extractor.py`. The class turns
the fragments an OCR engine reads from a scanned lab report into a list of
test records. A fragment is a dictionary with a `text` and a `bbox`
(`x0, y0, x1, y1`). A record has five fields:

- `test_name`
- `test_value`
- `test_unit`
- `bio_reference_range`
- `lab_test_out_of_range`

The pipeline has four stages:

1. `process_ocr_results` rejects input that is not a list or is empty, and
   runs the other stages.
2. `_group_into_rows` rebuilds the table rows:
   - it keeps only fragments that have a four-number bounding box;
   - it sorts them by top edge;
   - it starts a new row whenever a fragment's vertical centre is more than
     15 pixels from its predecessor's;
   - it sorts each row left to right.
3. `_is_noise_row` drops header, footer and patient-detail rows. It drops a
   row when:
   - the row contains a keyword and does not start with a whitelisted test
     abbreviation followed by a plausible value; or
   - the first cell is malformed.
4. `_extract_test_from_row` handles each remaining row of two or more cells:
   - it cleans the first cell into the test name;
   - one left-to-right pass gives every other cell at most one role (value,
     then unit, then range);
   - it fills in the record and flags a value outside its reference range.

Helpers:

- `_is_plausible_value`
- `_parse_numeric_value`
- `_find_unit`
- `_looks_like_range`
- `_parse_range_bounds`

The constants the constructor sets never change afterwards, so they are the
constants of module `Config`; nothing in the model is a class.

## Modules

Each module sits in a file of the same name, in lower case.

- `Optional`: Python's `None` for missing values.
- `Text`: the `str` built-ins used, over ASCII characters:
  - `strip`, `lower`, `upper`, `isdigit`;
  - substring `in`;
  - `" ".join`;
  - `re.split` on a character class.
- `Patterns`: the three compiled regexes as search functions, and `float()`
  on the numbers they capture.
- `Sorting`: Python's stable `sorted` as an insertion sort. Proved: it
  returns a sorted permutation, and it keeps the input order of equal keys.
- `Config`: the tolerance, the units, the noise keywords, the qualitative
  results, the whitelist.
- `Rows`: `_group_into_rows`, as a method proved against the function
  `Grouped`.
- `Parsers`: the five helpers.
- `Noise`: `_is_noise_row`.
- `Classifier`: `_extract_test_from_row`, as methods proved against the
  function `Extract`.
- `Pipeline`: `process_ocr_results`, as a method proved against the
  function `Process`.
- `Scenarios`: one haemoglobin row run through the whole model.

### Behaviour of the code worth knowing

The model follows the code:

- `_find_unit` splits its text at `/`. A cleaned word therefore never holds
  a `/`, and only `%`, `pg` and `fl` can ever be found:
  - `Parsers.UnitOfShape` proves this;
  - `Parsers.GramsPerDecilitreIsNoUnit` proves it for `g/dl`.
- Consequences: `g/dl` or `mg/dl` in its own cell is a plausible value, not
  a unit. The row `HB | 8.0 | g/dl | 12-16` therefore gets no
  unit (`Scenarios.HbRecord`), although `common_units` lists `g/dl`
  (extractor.py:15): `_find_unit` can never return it.
- For a limit `>n`, `_parse_range_bounds` converts the comparator instead
  of the number (extractor.py:184). This always raises, falls into the bare
  `except`, and yields `(None, None)`. The model does the same
  (`Parsers.ParseRangeBoundsCases`).
- The value is stored as `str(num_val)` (extractor.py:115) and read back by
  the value pattern (line 129). Python writes a number below 1e-4 or from
  1e16 on in exponent form, and the pattern then reads only the digits before
  the `e`. A value `0.00002` with the range `0.00001-0.00003` is therefore
  flagged as out of range (`Classifier.ReparsedExponentForm`).
- Noise keywords match as substrings of the whole row text. For example, a
  `Uric Acid` row is dropped for containing `id`
  (`Noise.UricAcidRowIsNoise`).

## Model

| member | source | states |
|---|---|---|
| Pipeline.ProcessOcrResults | extractor.py:26-41 | the loop's result equals `Process`: no records for a non-list or empty input, otherwise the records of the grouped rows, in row order, skipping rows of fewer than two cells, noise rows and rows with no record |
| Pipeline.ExtractAllStep | extractor.py:33-38 | one more row appends its record, if it has one, at the end of the list |
| Pipeline.RowTestWellFormed | extractor.py:34-38 | a row's record has an upper-case name of at least two characters and a truthy value; a flag appears only beside a range and a numeric value; a unit is only `%`, `pg` or `fl` |
| Pipeline.ExtractAllFromRows | extractor.py:32-38 | there are no more records than rows; every record is well formed and is the record of some row of at least two cells that is not noise |
| Pipeline.ExtractAllWellFormed | extractor.py:32-38 | every collected record is well formed, and there are no more of them than rows |
| Pipeline.ExtractAllOrigin | extractor.py:32-38 | every collected record is the record of one of the rows |
| Pipeline.ProcessWellFormed | extractor.py:26-41 | every record `process_ocr_results` returns is well formed and comes from one grouped row that is kept |
| Pipeline.NoFragmentsNoRecords | extractor.py:27-29 | input that is not a list, or has no fragment with a four-number bounding box, gives no records |
| Rows.GroupIntoRows | extractor.py:43-63 | the method's rows equal `Grouped`: the valid fragments sorted by `y0`, cut into rows by the centre tolerance, each row sorted by `x0` |
| Rows.SweepRows | extractor.py:49-63 | the sweep's rows are the row segments of the sorted fragments, each sorted by `x0` |
| Rows.Lines | extractor.py:45 | the kept fragments all have a four-element `bbox`, and each appears exactly as often as in the input |
| Rows.LinesOfLines | extractor.py:45 | the filter keeps a list of valid fragments unchanged |
| Rows.SegmentsSplit | extractor.py:52-59 | the sweep cuts the sorted fragments into non-empty consecutive pieces: neighbours inside a piece are within the tolerance, and neighbours across a cut are not |
| Rows.RowSplitUnique | extractor.py:52-59 | only one such cut exists, so the rows are determined by the fragments and the tolerance |
| Rows.OneRow | extractor.py:52-62 | fragments whose neighbours are all within the tolerance form a single row |
| Rows.SweepJoin | extractor.py:54-55 | a fragment within the tolerance of its predecessor joins the open row |
| Rows.SweepCut | extractor.py:56-58 | a fragment outside the tolerance closes the open row and starts a new one |
| Rows.SortRowsKeepsElements | extractor.py:57-62 | sorting each row keeps every fragment, as often as before |
| Rows.GroupedRows | extractor.py:57-62 | every row is non-empty, is sorted by `x0`, and holds only valid fragments |
| Rows.GroupedKeepsLines | extractor.py:45-63 | over all rows, each valid fragment appears exactly as often as in the input; there are no rows exactly when there is no valid fragment |
| Rows.GroupedInOrder | extractor.py:48-63 | every fragment of an earlier row has a `y0` no greater than every fragment of a later row |
| Rows.PiecesInOrder | extractor.py:48-59 | cutting a sorted list into consecutive pieces keeps the pieces in key order |
| Sorting.SortBy | extractor.py:48 | the result is sorted by the key and is a permutation of the input |
| Sorting.InsertBy | extractor.py:48 | inserting into a sorted list keeps it sorted and adds exactly the new element |
| Sorting.SortBySorted | extractor.py:57 | a list already sorted by the key is returned unchanged |
| Sorting.SortByStable | extractor.py:48 | the elements with any one key keep their input order (`sorted` is stable) |
| Noise.NoiseRowIff | extractor.py:65-80 | a row is noise exactly when its stripped first cell is too short, all digits or starts with `:`, `*` or `.`, or when it holds a keyword and either its first cell is no whitelisted abbreviation or its second cell is no plausible value |
| Noise.BadFirstCellIsNoise | extractor.py:74-78 | a malformed first cell makes the row noise whatever its keywords |
| Noise.KeywordRowIsNoise | extractor.py:66-70 | a keyword with a first cell that is not whitelisted makes the row noise |
| Noise.WhitelistedRowIsKept | extractor.py:67-80 | a whitelisted first cell followed by a plausible value keeps the row, keywords or not |
| Noise.AbbreviationShape | extractor.py:69 | every whitelisted abbreviation has at least two characters and starts with a letter |
| Noise.UricAcidRowIsNoise | extractor.py:18-23 | a `Uric Acid` row with a numeric value is noise, because `id` is a substring |
| Classifier.ExtractTestFromRow | extractor.py:82-138 | the method's result equals `Extract` |
| Classifier.ClaimColumns | extractor.py:91-110 | after the pass, `potential_value_col`, `potential_unit_col` and `potential_range_col` are each the first cell after the name that qualifies for that role and was not claimed by a role of higher priority, or -1 |
| Classifier.ClaimCell | extractor.py:96-110 | one cell claims the value if the value is unclaimed and the cell qualifies; failing that the unit; failing that the range |
| Classifier.BuildRecord | extractor.py:112-138 | the filled-in dictionary equals `Record` for the claimed columns |
| Classifier.ClaimStep | extractor.py:96-110 | the claim rule for cell `i`, stated on the final columns: value first, then unit, then range, each only while unclaimed |
| Classifier.FirstColStep | extractor.py:95-110 | a role's column after cell `i` is `i` exactly when the role was unclaimed, the cell was not taken, and it qualifies |
| Classifier.MarksAt | extractor.py:99-108 | cell `k` is marked for a role exactly when its stripped text qualifies for it |
| Classifier.ColumnsDistinct | extractor.py:95-110 | the value, unit and range columns lie after the name and are pairwise distinct |
| Classifier.CleanNameNormal | extractor.py:86-87 | the cleaned name is upper-case, has no surrounding white space, and is no longer than the cell text |
| Classifier.ExtractRecord | extractor.py:86-89 | a name shorter than two characters gives no record; otherwise the record is built from the columns |
| Classifier.ExtractNoneIff | extractor.py:86-126 | there is no record exactly when the cleaned name is shorter than two characters or no cell claimed the value |
| Classifier.RecordShape | extractor.py:112-126 | a record's name is upper-case with at least two characters; its value comes from the value column, is a number exactly when that cell holds a digit, and is otherwise the cell's non-blank stripped text |
| Classifier.ValueOfShape | extractor.py:112-115 | a value exists exactly when a value column was claimed; it is truthy; it is numeric exactly when the cell has a digit; otherwise it is the stripped text, from which no number can be read |
| Classifier.Reparsed | extractor.py:115-129 | definition: the number the value pattern reads back from `str(x)`; characterised by `Classifier.ReparsedCases` |
| Classifier.ReparsedCases | extractor.py:115-129 | a number from 1e-4 up to 1e16 (or 0) reads back as itself; a smaller or larger one reads back as its mantissa in [1, 10), which differs from it |
| Classifier.ReparsedExponentForm | extractor.py:115-136 | `0.00002` reads back as 2, so against `0.00001-0.00003` it is flagged out of range, though the number itself lies inside |
| Classifier.VerbatimHasNoNumber | extractor.py:114-115 | the value is numeric exactly when the text has a digit; reading a number back from a verbatim value (line 129) gives nothing |
| Classifier.RangeOfShape | extractor.py:123-124 | a recorded reference range is never blank |
| Classifier.OutOfRange | extractor.py:132-136 | a flag exists exactly when some bound was read; it is set exactly when the value is below the low bound or above the high bound |
| Classifier.FlagFromShape | extractor.py:128-136 | the flag exists exactly when there is a range, the value is numeric and some bound was read; it then rests on a high bound and compares the value, as read back from its `str` form, with both bounds |
| Classifier.FlagSemantics | extractor.py:128-136 | the same holds of every record `_extract_test_from_row` returns |
| Classifier.UnitOfRowShape | extractor.py:116-121 | a recorded unit, from the unit column or from the value text, is `%`, `pg` or `fl` once cleaned and lower-cased |
| Classifier.RecordUnit | extractor.py:116-121 | the same holds of every record's unit |
| Parsers.FindUnit | extractor.py:156-163 | the loop returns the first word of the split whose cleaned, lower-cased form equals some known unit, or `None` |
| Parsers.MatchesKnownUnit | extractor.py:160-162 | the inner loop succeeds exactly when some known unit matches the cleaned word, ignoring case |
| Parsers.FirstWhere | extractor.py:158-163 | `None` exactly when no word qualifies; otherwise the first word that does |
| Parsers.UnitOfShape | extractor.py:156-163 | a found unit is one of the separator-free words of the text, is non-empty, and is `%`, `pg` or `fl` once cleaned and lower-cased |
| Parsers.SlashFreeUnits | extractor.py:14-17 | every known unit either contains `/` or is `%`, `pg` or `fl` |
| Parsers.GramsPerDecilitreIsNoUnit | extractor.py:157-162 | `_find_unit("g/dl")` is `None` |
| Parsers.NotUnitWord | extractor.py:159-162 | a word whose cleaned, lower-cased form has no `/` and is not `%`, `pg` or `fl` matches no unit |
| Parsers.LetterWordIsNoUnit | extractor.py:159-162 | a lower-case word that starts with neither `p` nor `f` matches no unit |
| Parsers.PlausibleValueCases | extractor.py:140-147 | a text is a plausible value exactly when it is 1 to 30 characters once stripped, and either holds a digit, is a qualitative result, or is neither bare punctuation nor exactly its own unit |
| Parsers.ValueSearchIffDigit | extractor.py:144 | the value pattern finds a match exactly when the text has a digit |
| Parsers.RemoveCommas | extractor.py:150 | the result has no comma and has a digit exactly when the input has one |
| Parsers.ParseNumericIffDigit | extractor.py:149-154 | `_parse_numeric_value` gives `None` exactly when the text has no digit; otherwise it gives the first number of the comma-free, stripped text |
| Parsers.LooksLikeRangeIff | extractor.py:165-171 | a text looks like a range exactly when it is 1 to 50 characters once stripped and has either a comparator followed by optional white space and a digit, or a dash and a digit |
| Parsers.ParseRangeBoundsCases | extractor.py:173-186 | the bounds are both numbers of the first `low - high` match; otherwise `(None, n)` for a first `<n`; otherwise `(None, None)`; a low bound never comes without a high one |
| Patterns.NumberLen | extractor.py:10 | a number starts at a position exactly when a digit is there |
| Patterns.NumberParses | extractor.py:149-153 | `float` accepts every number the patterns capture, so those `try` blocks never raise there |
| Patterns.ComparatorDoesNotParse | extractor.py:184 | `float('<')` and `float('>')` raise |
| Patterns.ValueSearchFirstNumber | extractor.py:144 | the value pattern's group 2 is the number at the first digit, or there is no match |
| Patterns.RangeSearchShape | extractor.py:12 | a range match implies a digit and a dash in the text, and both captured numbers are accepted by `float` |
| Patterns.LimitSearchShape | extractor.py:13 | the limit pattern matches exactly when some comparator is followed by optional white space and a digit; the match is at the first such comparator; its comparator is `<` or `>` and its number is accepted by `float` |
| Patterns.LimitSearchFound | extractor.py:13 | the limit pattern matches exactly when some comparator is followed by optional white space and a digit, and then yields `<` or `>` and a number `float` accepts |
| Patterns.LimitSearchFirst | extractor.py:13 | the match `search` returns starts at some position, and no match starts before it |
| Patterns.ScaleUp | extractor.py:115 | a positive number below 10 scaled up by powers of ten lies in [1, 10) and is the number times such a power (the mantissa of exponent form) |
| Patterns.ScaleDown | extractor.py:115 | a number of at least 10 scaled down by powers of ten lies in [1, 10), and the number is it times such a power |
| Text.StripKeepsDigits | extractor.py:140-150 | stripping neither adds nor removes digits |
| Text.StripIdempotent | extractor.py:86-87 | stripping twice is stripping once |
| Text.MissingCharNotContained | extractor.py:67 | a text without one of a keyword's characters does not contain the keyword |
| Text.JoinChars | extractor.py:66 | every character of a joined text comes from the separator or from one of the parts |
| Text.Split | extractor.py:157 | the split has at least one piece, and no piece holds a separator |
| Scenarios.HbRecord | extractor.py:82-138 | the row `HB, 8.0, g/dl, 12-16` gives name `HB`, value 8.0, no unit, range `12-16` and out of range |
| Scenarios.HbRowIsNoNoise | extractor.py:65-80 | that row is not noise |
| Scenarios.HbProcess | extractor.py:26-63 | the four fragments of that row give exactly that one record |
| Noise.IsNoiseRow | extractor.py:65-80 | definition of `_is_noise_row`; characterised by `Noise.NoiseRowIff` |
| Parsers.IsPlausibleValue | extractor.py:140-147 | definition of `_is_plausible_value`; characterised by `Parsers.PlausibleValueCases` |
| Parsers.ParseNumeric | extractor.py:149-154 | definition of `_parse_numeric_value`; characterised by `Parsers.ParseNumericIffDigit` |
| Parsers.UnitOf | extractor.py:156-163 | definition of `_find_unit`; characterised by `Parsers.FindUnit` and `Parsers.UnitOfShape` |
| Parsers.LooksLikeRange | extractor.py:165-171 | definition of `_looks_like_range`; characterised by `Parsers.LooksLikeRangeIff` |
| Parsers.ParseRangeBounds | extractor.py:173-186 | definition of `_parse_range_bounds`; characterised by `Parsers.ParseRangeBoundsCases` |
| Classifier.Extract | extractor.py:82-138 | definition of `_extract_test_from_row`; characterised by `Classifier.ExtractTestFromRow`, `Classifier.ExtractNoneIff` and `Classifier.RecordShape` |
| Classifier.Record | extractor.py:112-138 | definition of the filled-in record; characterised by `Classifier.BuildRecord` and `Classifier.RecordShape` |
| Classifier.CleanName | extractor.py:86-87 | definition of the name cleaning; characterised by `Classifier.CleanNameNormal` |
| Classifier.Qualifies | extractor.py:99-108 | definition of the three role tests; characterised by `Classifier.MarksAt` |
| Classifier.ValueCol | extractor.py:91-101 | definition of `potential_value_col`; characterised by `Classifier.ClaimColumns` and `Classifier.ColumnsDistinct` |
| Classifier.UnitCol | extractor.py:92-106 | definition of `potential_unit_col`; characterised by `Classifier.ClaimColumns` and `Classifier.ColumnsDistinct` |
| Classifier.RangeCol | extractor.py:93-110 | definition of `potential_range_col`; characterised by `Classifier.ClaimColumns` and `Classifier.ColumnsDistinct` |
| Classifier.FlagFrom | extractor.py:128-136 | definition of `lab_test_out_of_range`; characterised by `Classifier.FlagFromShape` |
| Rows.Segments | extractor.py:49-59 | definition of the row sweep; characterised by `Rows.SegmentsSplit` and `Rows.RowSplitUnique` |
| Rows.Grouped | extractor.py:43-63 | definition of `_group_into_rows`; characterised by `Rows.GroupIntoRows`, `Rows.GroupedRows`, `Rows.GroupedKeepsLines` and `Rows.GroupedInOrder` |
| Pipeline.Process | extractor.py:26-41 | definition of `process_ocr_results`; characterised by `Pipeline.ProcessOcrResults` and `Pipeline.ProcessWellFormed` |
| Pipeline.RowTest | extractor.py:34-38 | definition of one row's outcome; characterised by `Pipeline.RowTestWellFormed` |
| Pipeline.ExtractAll | extractor.py:32-38 | definition of the loop over rows; characterised by `Pipeline.ExtractAllStep`, `Pipeline.ExtractAllFromRows` and `Pipeline.ExtractAllOrigin` |
| Patterns.ValueSearch | extractor.py:10 | definition of `value_pattern.search`; characterised by `Patterns.ValueSearchFirstNumber` |
| Patterns.RangeSearch | extractor.py:12 | definition of `range_pattern.search`; characterised by `Patterns.RangeSearchShape` |
| Patterns.LimitSearch | extractor.py:13 | definition of `limit_pattern.search`; characterised by `Patterns.LimitSearchShape` |
| Patterns.ToFloat | extractor.py:149-154 | definition of `float` on a captured number; characterised by `Patterns.NumberParses` and `Patterns.ComparatorDoesNotParse` |

## Left out

- Logging (extractor.py:5-6, 28, 40) has no effect on results and is not modelled.
- main.py, the web service that runs the OCR engine and calls the extractor, is not part of this model.
- The stored test value: `str(num_val)` (extractor.py:115) is kept as the number itself, `Numeric(x)`, and `Classifier.Reparsed` gives what line 129 reads back from its `str` form: the number itself in decimal notation, and the digits before the `e` in exponent notation. The exact digits of Python's shortest `repr` are not modelled: where IEEE rounding changes the digits, `Reparsed` keeps exact ones.
- Numbers: `float` is exact decimal arithmetic on reals. IEEE rounding and overflow are not modelled.
- Characters: case mapping, `isdigit` and white space cover ASCII only; the range dash `–` is handled as a character. Unicode case folding and Unicode digits are not modelled.
- Input values: Python's dynamic values become a datatype: a non-dictionary, or a dictionary whose `text` and `bbox` may each be missing. Bounding-box coordinates are integers, not floats.
- Row centres: centres are compared doubled against twice the tolerance, which avoids the division by two. The initial centre of minus infinity (line 50) is never read, because the first fragment always opens a row.
- Constant sets: the sets of units and noise keywords are sequences in a fixed order. Every use only asks whether some member matches, so the order changes nothing.
- Empty rows: `_is_noise_row` is modelled only for non-empty rows. The caller only passes rows of at least two cells, and the source would fail on an empty row at `row[0]`.
