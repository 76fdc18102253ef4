/**
  The fixed vocabulary and tolerance that the extractor's constructor sets
  up (extractor.py:9-24) and never changes afterwards. The source keeps the
  units and the noise keywords in sets; they are listed here in a fixed
  order, which changes nothing because every use only asks whether some
  member matches.
*/
module Config {

  /** Largest difference of vertical centres, in pixels, within one row. */
  const YTolerance: int := 15

  /** Qualitative results accepted as a test value (compared lower-case). */
  const CommonTextResults: set<string> := {"nil", "negative", "positive", "trace", "present", "absent"}

  const CommonUnits: seq<string> := [
    "%", "g/dl", "mg/dl", "u/l", "iu/l", "mmol/l", "pg", "fl",
    "/cumm", "/mm\U{B3}", "x10^3/\U{3BC}l", "x10^6/\U{3BC}l", "meq/l", "mm/hr"
  ]

  const NoiseKeywords: seq<string> := [
    "test", "result", "unit", "range", "reference", "name", "patient", "doctor",
    "sample", "specimen", "date", "time", "age", "sex", "id", "phone", "page",
    "hospital", "laboratory", "diagnostics", "report", "header", "footer",
    "printed", "signature", "verified"
  ]

  /** Test abbreviations that may share a row with a noise keyword (extractor.py:69). */
  const Abbreviations: seq<string> := ["HB", "PCV", "TLC", "DLC", "RBC", "MCV", "MCH", "MCHC", "PLT", "ESR"]

  /** Texts that are never a value unless they hold a number (extractor.py:146). */
  const BarePunctuation: seq<string> := [":", "-", "--", ".", ","]
}
