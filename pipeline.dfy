/**
  The entry point `process_ocr_results` (extractor.py:26-41): group the OCR
  fragments into rows, drop rows of fewer than two cells and noise rows, and
  collect the record of every remaining row that yields one, in row order.
*/
module Pipeline {
  import opened Optional
  import opened Text
  import opened Rows
  import Noise
  import Parsers
  import Classifier

  /** The argument of `process_ocr_results`: a list, or any other Python value. */
  datatype OcrResults = NotAList | Items(entries: seq<Entry>)

  /** The record one row contributes (extractor.py:34-38). */
  function RowTest(row: seq<Entry>): Option<Classifier.LabTest> {
    if |row| < 2 || Noise.IsNoiseRow(row) then None else Classifier.Extract(row)
  }

  /** The records of `rows`, in order. */
  function ExtractAll(rows: seq<seq<Entry>>): seq<Classifier.LabTest>
    decreases |rows|
  {
    if rows == [] then []
    else
      var t := RowTest(rows[|rows| - 1]);
      ExtractAll(rows[..|rows| - 1]) + (if t.Some? then [t.value] else [])
  }

  /** What `process_ocr_results` returns. */
  function Process(input: OcrResults): seq<Classifier.LabTest> {
    if input.NotAList? || input.entries == [] then [] else ExtractAll(Grouped(input.entries))
  }

  /** `process_ocr_results` (extractor.py:26-41). */
  method ProcessOcrResults(input: OcrResults) returns (extractedTests: seq<Classifier.LabTest>)
    ensures extractedTests == Process(input)
  {
    if input.NotAList? || input.entries == [] {
      return [];
    }
    var rows := GroupIntoRows(input.entries);
    extractedTests := [];
    for i := 0 to |rows|
      invariant extractedTests == ExtractAll(rows[..i])
    {
      var row := rows[i];
      ExtractAllStep(rows, i);
      if |row| < 2 || Noise.IsNoiseRow(row) {
        continue;
      }
      var testData := Classifier.ExtractTestFromRow(row);
      if testData.Some? {
        extractedTests := extractedTests + [testData.value];
      }
    }
    assert rows[..|rows|] == rows;
  }

  /** One more row adds its record, if any, at the end. */
  lemma ExtractAllStep(rows: seq<seq<Entry>>, i: nat)
    requires i < |rows|
    ensures var t := RowTest(rows[i]);
      ExtractAll(rows[..i + 1]) == ExtractAll(rows[..i]) + (if t.Some? then [t.value] else [])
  {
    assert rows[..i + 1][..i] == rows[..i];
  }

  /** What every record carries: an upper-case name of at least two
      characters, a truthy value, a flag only beside a reference range and a
      numeric value, and a unit only of the forms `%`, `pg` or `fl`. */
  predicate WellFormed(rec: Classifier.LabTest) {
    |rec.testName| >= 2 && Upper(rec.testName) == rec.testName
    && Classifier.Truthy(rec.testValue)
    && (rec.labTestOutOfRange.Some? ==> rec.bioReferenceRange.Some? && rec.testValue.Numeric?)
    && (rec.testUnit.Some? ==> Lower(Parsers.Clean(rec.testUnit.value)) in ["%", "pg", "fl"])
  }

  lemma RowTestWellFormed(row: seq<Entry>)
    ensures RowTest(row).Some? ==> WellFormed(RowTest(row).value)
  {
    if |row| >= 2 && !Noise.IsNoiseRow(row) {
      Classifier.RecordShape(row);
      Classifier.FlagSemantics(row);
      Classifier.RecordUnit(row);
    }
  }

  /** Each record comes from a row of at least two cells that is not noise,
      and is that row's record; there are never more records than rows. */
  lemma ExtractAllFromRows(rows: seq<seq<Entry>>)
    ensures |ExtractAll(rows)| <= |rows|
    ensures forall rec | rec in ExtractAll(rows) ::
      WellFormed(rec)
      && exists row | row in rows :: |row| >= 2 && !Noise.IsNoiseRow(row) && Classifier.Extract(row) == Some(rec)
  {
    ExtractAllWellFormed(rows);
    ExtractAllOrigin(rows);
  }

  lemma {:induction false} ExtractAllWellFormed(rows: seq<seq<Entry>>)
    ensures |ExtractAll(rows)| <= |rows|
    ensures forall rec | rec in ExtractAll(rows) :: WellFormed(rec)
    decreases |rows|
  {
    if rows != [] {
      ExtractAllWellFormed(rows[..|rows| - 1]);
      RowTestWellFormed(rows[|rows| - 1]);
    }
  }

  lemma {:induction false} ExtractAllOrigin(rows: seq<seq<Entry>>)
    ensures forall rec | rec in ExtractAll(rows) :: exists row | row in rows :: RowTest(row) == Some(rec)
    decreases |rows|
  {
    if rows != [] {
      var init := rows[..|rows| - 1];
      var last := rows[|rows| - 1];
      ExtractAllOrigin(init);
      assert forall row | row in init :: row in rows;
      assert last in rows;
    }
  }

  /** Every record `process_ocr_results` returns is well formed and is the
      record of one of the grouped rows. */
  lemma ProcessWellFormed(input: OcrResults)
    ensures forall rec | rec in Process(input) ::
      WellFormed(rec)
      && exists row | row in Grouped(input.entries) ::
           |row| >= 2 && !Noise.IsNoiseRow(row) && Classifier.Extract(row) == Some(rec)
  {
    if !(input.NotAList? || input.entries == []) {
      ExtractAllFromRows(Grouped(input.entries));
    }
  }

  /** Input that is not a list, is empty, or holds no fragment with a
      four-number bounding box yields no records. */
  lemma NoFragmentsNoRecords(input: OcrResults)
    requires input.NotAList? || Lines(input.entries) == []
    ensures Process(input) == []
  {
    if input.Items? && input.entries != [] {
      GroupedKeepsLines(input.entries);
    }
  }
}
