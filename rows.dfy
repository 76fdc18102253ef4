/**
  Row reconstruction (`_group_into_rows`, extractor.py:43-63): keep the
  fragments that carry a four-number bounding box, sort them by their top
  edge, sweep them into rows by the distance between vertical centres of
  neighbours, and sort each row left to right.
*/
module Rows {
  import opened Optional
  import opened Sorting
  import Config

  /**
    One element of the OCR output. The source accepts any Python value and
    reads a dictionary's `text` and `bbox` keys; `None` stands for a missing
    key. Coordinates are integers.
  */
  datatype Entry = NotADict | Dict(text: Option<string>, bbox: Option<seq<int>>)

  /** The filter of extractor.py:45: a dictionary with a four-element `bbox`. */
  predicate IsLine(e: Entry) {
    e.Dict? && e.bbox.Some? && |e.bbox.value| == 4
  }

  /** `item.get('text', '')`. */
  function TextOf(e: Entry): string {
    if e.Dict? && e.text.Some? then e.text.value else ""
  }

  function X0(e: Entry): int {
    if IsLine(e) then e.bbox.value[0] else 0
  }

  function Y0(e: Entry): int {
    if IsLine(e) then e.bbox.value[1] else 0
  }

  /** Twice the vertical centre `(y0 + y1) / 2`, which keeps the arithmetic integral. */
  function CentreTwice(e: Entry): int {
    if IsLine(e) then e.bbox.value[1] + e.bbox.value[3] else 0
  }

  /** The centres of `a` and `b` differ by at most the tolerance (extractor.py:54). */
  predicate SameRow(a: Entry, b: Entry) {
    var d := CentreTwice(a) - CentreTwice(b);
    -2 * Config.YTolerance <= d <= 2 * Config.YTolerance
  }

  /** The list comprehension of extractor.py:45. */
  function Lines(s: seq<Entry>): (r: seq<Entry>)
    ensures forall e | e in r :: IsLine(e)
    ensures forall e :: multiset(r)[e] == if IsLine(e) then multiset(s)[e] else 0
    decreases |s|
  {
    if s == [] then []
    else
      assert s == [s[0]] + s[1..];
      (if IsLine(s[0]) then [s[0]] else []) + Lines(s[1..])
  }

  function Flatten<T>(rows: seq<seq<T>>): seq<T>
    decreases |rows|
  {
    if rows == [] then [] else Flatten(rows[..|rows| - 1]) + rows[|rows| - 1]
  }

  /** `r` cuts `s` into non-empty consecutive pieces, cutting exactly where
      two neighbours are not on the same row. */
  predicate IsRowSplit(s: seq<Entry>, r: seq<seq<Entry>>) {
    Flatten(r) == s && NonEmptyPieces(r) && JoinedWithin(r) && CutBetween(r)
  }

  predicate NonEmptyPieces(r: seq<seq<Entry>>) {
    forall k | 0 <= k < |r| :: r[k] != []
  }

  /** Neighbours inside one piece are on the same row. */
  predicate JoinedWithin(r: seq<seq<Entry>>) {
    forall k, j | 0 <= k < |r| && 0 <= j < |r[k]| - 1 :: SameRow(r[k][j], r[k][j + 1])
  }

  /** The last element of a piece and the first of the next are not on the same row. */
  predicate CutBetween(r: seq<seq<Entry>>) {
    forall k | 0 <= k < |r| - 1 :: CutAt(r, k)
  }

  predicate CutAt(r: seq<seq<Entry>>, k: nat)
    requires k + 1 < |r|
  {
    r[k] != [] && r[k + 1] != [] && !SameRow(r[k][|r[k]| - 1], r[k + 1][0])
  }

  lemma FlattenLast<T>(r: seq<seq<T>>)
    requires r != [] && r[|r| - 1] != []
    ensures |Flatten(r)| >= |r[|r| - 1]|
    ensures Flatten(r)[|Flatten(r)| - |r[|r| - 1]|..] == r[|r| - 1]
  {
  }

  /** The last element of `s` is the last element of its last piece. */
  lemma SplitLast(s: seq<Entry>, p: seq<seq<Entry>>)
    requires IsRowSplit(s, p) && p != []
    ensures s != [] && p[|p| - 1][|p[|p| - 1]| - 1] == s[|s| - 1]
  {
    FlattenLast(p);
  }

  /** A fragment on the same row as the last one joins the last piece. */
  lemma SplitExtend(s: seq<Entry>, p: seq<seq<Entry>>, x: Entry)
    requires IsRowSplit(s, p) && p != [] && SameRow(s[|s| - 1], x)
    ensures IsRowSplit(s + [x], p[..|p| - 1] + [p[|p| - 1] + [x]])
  {
    SplitLast(s, p);
    var n := |p|;
    var last := p[n - 1];
    var r := p[..n - 1] + [last + [x]];
    assert r[..n - 1] == p[..n - 1];
    assert Flatten(p) == Flatten(p[..n - 1]) + last;
    assert Flatten(r) == s + [x];
    forall k, j | 0 <= k < |r| && 0 <= j < |r[k]| - 1 ensures SameRow(r[k][j], r[k][j + 1]) {
      if k < n - 1 {
        assert r[k] == p[k];
      } else if j < |last| - 1 {
        assert r[k][j] == last[j] && r[k][j + 1] == last[j + 1];
      } else {
        assert r[k][j] == s[|s| - 1] && r[k][j + 1] == x;
      }
    }
    forall k | 0 <= k < |r| - 1 ensures CutAt(r, k) {
      assert CutAt(p, k);
      assert r[k] == p[k];
      assert r[k + 1][0] == p[k + 1][0];
    }
  }

  /** A fragment not on the same row as the last one starts a new piece. */
  lemma SplitAppend(s: seq<Entry>, p: seq<seq<Entry>>, x: Entry)
    requires IsRowSplit(s, p) && (p == [] || !SameRow(s[|s| - 1], x))
    ensures IsRowSplit(s + [x], p + [[x]])
  {
    var r := p + [[x]];
    assert r[..|r| - 1] == p;
    if p != [] {
      SplitLast(s, p);
    }
    forall k, j | 0 <= k < |r| && 0 <= j < |r[k]| - 1 ensures SameRow(r[k][j], r[k][j + 1]) {
      assert r[k] == p[k];
    }
    forall k | 0 <= k < |r| - 1 ensures CutAt(r, k) {
      assert r[k] == p[k];
      if k < |p| - 1 {
        assert CutAt(p, k);
      } else {
        assert r[k + 1] == [x];
      }
    }
  }

  /** The sweep of extractor.py:52-62, before each row is sorted by `x0`. */
  function Segments(s: seq<Entry>): seq<seq<Entry>>
    decreases |s|
  {
    if s == [] then []
    else
      var init := s[..|s| - 1];
      var x := s[|s| - 1];
      var p := Segments(init);
      if p != [] && SameRow(init[|init| - 1], x) then p[..|p| - 1] + [p[|p| - 1] + [x]]
      else p + [[x]]
  }

  /** The sweep cuts the `y0`-sorted fragments exactly between neighbours whose
      centres differ by more than the tolerance. */
  lemma {:induction false} SegmentsSplit(s: seq<Entry>)
    ensures IsRowSplit(s, Segments(s))
    decreases |s|
  {
    if s != [] {
      var init := s[..|s| - 1];
      var x := s[|s| - 1];
      SegmentsSplit(init);
      assert s == init + [x];
      var p := Segments(init);
      if p != [] && SameRow(init[|init| - 1], x) {
        SplitExtend(init, p, x);
      } else {
        SplitAppend(init, p, x);
      }
    }
  }

  /** Dropping the last piece leaves a split of the rest. */
  lemma SplitPrefix(s: seq<Entry>, r: seq<seq<Entry>>)
    requires IsRowSplit(s, r) && r != []
    ensures |r[|r| - 1]| <= |s|
    ensures s[|s| - |r[|r| - 1]|..] == r[|r| - 1]
    ensures IsRowSplit(s[..|s| - |r[|r| - 1]|], r[..|r| - 1])
  {
    var p := r[..|r| - 1];
    assert Flatten(r) == Flatten(p) + r[|r| - 1];
    forall k, j | 0 <= k < |p| && 0 <= j < |p[k]| - 1 ensures SameRow(p[k][j], p[k][j + 1]) {
      assert p[k] == r[k];
    }
    forall k | 0 <= k < |p| - 1 ensures CutAt(p, k) {
      assert CutAt(r, k);
      assert p[k] == r[k] && p[k + 1] == r[k + 1];
    }
  }

  lemma SplitEmpty(s: seq<Entry>, r: seq<seq<Entry>>)
    requires IsRowSplit(s, r)
    ensures r == [] <==> s == []
  {
    if r != [] {
      FlattenLast(r);
    }
  }

  /** Removing the last element of `s` shortens its last piece. */
  lemma SplitShrink(s: seq<Entry>, r: seq<seq<Entry>>)
    requires IsRowSplit(s, r) && r != [] && |r[|r| - 1]| >= 2
    ensures IsRowSplit(s[..|s| - 1], r[..|r| - 1] + [r[|r| - 1][..|r[|r| - 1]| - 1]])
  {
    SplitPrefix(s, r);
    var n := |r|;
    var last := r[n - 1];
    var q := r[..n - 1] + [last[..|last| - 1]];
    assert q[..n - 1] == r[..n - 1];
    assert Flatten(q) == Flatten(r[..n - 1]) + last[..|last| - 1];
    assert s == Flatten(r[..n - 1]) + last;
    assert Flatten(q) == s[..|s| - 1];
    forall k, j | 0 <= k < |q| && 0 <= j < |q[k]| - 1 ensures SameRow(q[k][j], q[k][j + 1]) {
      if k < n - 1 {
        assert q[k] == r[k];
      } else {
        assert q[k][j] == last[j] && q[k][j + 1] == last[j + 1];
      }
    }
    forall k | 0 <= k < |q| - 1 ensures CutAt(q, k) {
      assert CutAt(r, k);
      assert q[k] == r[k] && q[k + 1][0] == r[k + 1][0];
    }
  }

  /** Length of the longest suffix of `s` whose neighbours are all on the same row. */
  function TailRun(s: seq<Entry>): nat
    decreases |s|
  {
    if |s| <= 1 then |s|
    else if SameRow(s[|s| - 2], s[|s| - 1]) then 1 + TailRun(s[..|s| - 1])
    else 1
  }

  /** The last piece of any split is the longest same-row suffix. */
  lemma {:induction false} LastPieceIsTailRun(s: seq<Entry>, r: seq<seq<Entry>>)
    requires IsRowSplit(s, r) && r != []
    ensures |r[|r| - 1]| == TailRun(s)
    decreases |s|
  {
    SplitPrefix(s, r);
    var n := |r|;
    var last := r[n - 1];
    if |last| == 1 {
      if n > 1 {
        assert CutAt(r, n - 2);
        var p := r[..n - 1];
        assert p[n - 2] == r[n - 2];
        SplitLast(s[..|s| - 1], p);
        assert !SameRow(s[|s| - 2], s[|s| - 1]);
      }
    } else {
      assert last[|last| - 2] == s[|s| - 2] && last[|last| - 1] == s[|s| - 1];
      assert SameRow(s[|s| - 2], s[|s| - 1]);
      SplitShrink(s, r);
      LastPieceIsTailRun(s[..|s| - 1], r[..n - 1] + [last[..|last| - 1]]);
    }
  }

  /** There is only one way to cut a sequence into rows: `Segments` is it. */
  lemma {:induction false} RowSplitUnique(s: seq<Entry>, r1: seq<seq<Entry>>, r2: seq<seq<Entry>>)
    requires IsRowSplit(s, r1) && IsRowSplit(s, r2)
    ensures r1 == r2
    decreases |s|
  {
    SplitEmpty(s, r1);
    SplitEmpty(s, r2);
    if s != [] {
      LastPieceIsTailRun(s, r1);
      LastPieceIsTailRun(s, r2);
      SplitPrefix(s, r1);
      SplitPrefix(s, r2);
      var a := |r1[|r1| - 1]|;
      var p1, p2 := r1[..|r1| - 1], r2[..|r2| - 1];
      RowSplitUnique(s[..|s| - a], p1, p2);
      assert r1 == p1 + [r1[|r1| - 1]] && r2 == p2 + [r2[|r2| - 1]];
    }
  }

  /** Fragments whose neighbours are all on the same row form a single row. */
  lemma OneRow(s: seq<Entry>)
    requires s != []
    requires forall j | 0 <= j < |s| - 1 :: SameRow(s[j], s[j + 1])
    ensures Segments(s) == [s]
  {
    assert Flatten([s]) == Flatten([s][..0]) + s;
    assert IsRowSplit(s, [s]);
    SegmentsSplit(s);
    RowSplitUnique(s, Segments(s), [s]);
  }

  /** The filter keeps a list made only of well-formed fragments as it is. */
  lemma {:induction false} LinesOfLines(s: seq<Entry>)
    requires forall e | e in s :: IsLine(e)
    ensures Lines(s) == s
    decreases |s|
  {
    if s != [] {
      AllLinesTail(s);
      LinesOfLines(s[1..]);
      assert s == [s[0]] + s[1..];
    }
  }

  lemma AllLinesTail(s: seq<Entry>)
    requires s != [] && forall e | e in s :: IsLine(e)
    ensures IsLine(s[0]) && forall e | e in s[1..] :: IsLine(e)
  {
    assert s[0] in s;
    forall e | e in s[1..] ensures IsLine(e) {
      assert e in s;
    }
  }

  function SortRows(segments: seq<seq<Entry>>): (rows: seq<seq<Entry>>)
    ensures |rows| == |segments|
  {
    seq(|segments|, k requires 0 <= k < |segments| => SortBy(segments[k], X0))
  }

  /** What `_group_into_rows` returns. */
  function Grouped(textLines: seq<Entry>): seq<seq<Entry>> {
    SortRows(Segments(SortBy(Lines(textLines), Y0)))
  }

  lemma {:induction false} SortRowsKeepsElements(segments: seq<seq<Entry>>)
    ensures multiset(Flatten(SortRows(segments))) == multiset(Flatten(segments))
    decreases |segments|
  {
    if segments != [] {
      var n := |segments|;
      assert SortRows(segments)[..n - 1] == SortRows(segments[..n - 1]);
      SortRowsKeepsElements(segments[..n - 1]);
    }
  }

  lemma {:induction false} InFlatten<T>(r: seq<seq<T>>, k: nat, a: T)
    requires k < |r| && a in r[k]
    ensures a in Flatten(r)
    decreases |r|
  {
    if k < |r| - 1 {
      InFlatten(r[..|r| - 1], k, a);
    }
  }

  /** Pieces of a sorted sequence come in key order. */
  lemma {:induction false} PiecesInOrder<T>(r: seq<seq<T>>, key: T -> int)
    requires SortedBy(Flatten(r), key)
    ensures forall k1, k2, a, b | 0 <= k1 < k2 < |r| && a in r[k1] && b in r[k2] :: key(a) <= key(b)
    decreases |r|
  {
    if r != [] {
      var n := |r|;
      var front := Flatten(r[..n - 1]);
      assert Flatten(r) == front + r[n - 1];
      assert SortedBy(front, key) by {
        forall i, j | 0 <= i < j < |front| ensures key(front[i]) <= key(front[j]) {
          assert front[i] == Flatten(r)[i] && front[j] == Flatten(r)[j];
        }
      }
      PiecesInOrder(r[..n - 1], key);
      forall k1, k2, a, b | 0 <= k1 < k2 < n && a in r[k1] && b in r[k2] ensures key(a) <= key(b) {
        if k2 < n - 1 {
          assert r[k1] == r[..n - 1][k1] && r[k2] == r[..n - 1][k2];
        } else {
          assert r[k1] == r[..n - 1][k1];
          InFlatten(r[..n - 1], k1, a);
          var i :| 0 <= i < |front| && front[i] == a;
          var j :| 0 <= j < |r[n - 1]| && r[n - 1][j] == b;
          assert Flatten(r)[i] == a && Flatten(r)[|front| + j] == b;
        }
      }
    }
  }

  /** A row holds the same fragments as the piece it was sorted from. */
  lemma SortedRowMembers(segments: seq<seq<Entry>>, k: nat)
    requires k < |segments|
    ensures SortRows(segments)[k] == SortBy(segments[k], X0)
    ensures forall e :: e in SortRows(segments)[k] <==> e in segments[k]
    ensures SortRows(segments)[k] != [] <==> segments[k] != []
  {
    var row := SortBy(segments[k], X0);
    assert SortRows(segments)[k] == row;
    forall e ensures e in row <==> e in segments[k] {
      assert e in row <==> e in multiset(row);
    }
    assert |multiset(row)| == |multiset(segments[k])|;
  }

  /** Every row is non-empty, sorted by `x0`, and made of well-formed fragments. */
  lemma GroupedRows(textLines: seq<Entry>)
    ensures var rows := Grouped(textLines);
      && (forall k | 0 <= k < |rows| :: rows[k] != [] && SortedBy(rows[k], X0))
      && (forall k, e | 0 <= k < |rows| && e in rows[k] :: IsLine(e))
  {
    var sorted := SortBy(Lines(textLines), Y0);
    var segments := Segments(sorted);
    SegmentsSplit(sorted);
    var rows := SortRows(segments);
    forall k | 0 <= k < |rows| ensures rows[k] != [] && SortedBy(rows[k], X0) {
      SortedRowMembers(segments, k);
    }
    forall k, e | 0 <= k < |rows| && e in rows[k] ensures IsLine(e) {
      SortedRowMembers(segments, k);
      InFlatten(segments, k, e);
      assert e in multiset(sorted);
    }
  }

  /** The rows hold exactly the well-formed fragments, each as often as the input does;
      in particular there are no rows exactly when there is no well-formed fragment. */
  lemma GroupedKeepsLines(textLines: seq<Entry>)
    ensures multiset(Flatten(Grouped(textLines))) == multiset(Lines(textLines))
    ensures Grouped(textLines) == [] <==> Lines(textLines) == []
  {
    var sorted := SortBy(Lines(textLines), Y0);
    var segments := Segments(sorted);
    SegmentsSplit(sorted);
    SplitEmpty(sorted, segments);
    SortRowsKeepsElements(segments);
    assert |multiset(Lines(textLines))| == |multiset(sorted)|;
  }

  /** Rows come in the order of the sweep: every fragment of an earlier row
      starts no lower than every fragment of a later one. */
  lemma GroupedInOrder(textLines: seq<Entry>)
    ensures var rows := Grouped(textLines);
      forall k1, k2, a, b | 0 <= k1 < k2 < |rows| && a in rows[k1] && b in rows[k2] :: Y0(a) <= Y0(b)
  {
    var sorted := SortBy(Lines(textLines), Y0);
    var segments := Segments(sorted);
    SegmentsSplit(sorted);
    var rows := SortRows(segments);
    PiecesInOrder(segments, Y0);
    forall k1, k2, a, b | 0 <= k1 < k2 < |rows| && a in rows[k1] && b in rows[k2] ensures Y0(a) <= Y0(b) {
      SortedRowMembers(segments, k1);
      SortedRowMembers(segments, k2);
    }
  }

  /** One step of the sweep, as `Segments` sees it. */
  lemma SegmentsSnoc(s: seq<Entry>, x: Entry)
    ensures Segments(s + [x]) ==
      var p := Segments(s);
      if p != [] && SameRow(s[|s| - 1], x) then p[..|p| - 1] + [p[|p| - 1] + [x]] else p + [[x]]
  {
    var t := s + [x];
    assert t[..|t| - 1] == s && t[|t| - 1] == x;
  }

  lemma SweepFirst(x: Entry)
    ensures Segments([x]) == [[x]]
  {
    assert [x][..0] == [];
  }

  /** A fragment on the same row as its predecessor extends the open row. */
  lemma SweepJoin(s: seq<Entry>, x: Entry, closed: seq<seq<Entry>>, open: seq<Entry>)
    requires s != [] && Segments(s) == closed + [open] && SameRow(s[|s| - 1], x)
    ensures Segments(s + [x]) == closed + [open + [x]]
  {
    SegmentsSnoc(s, x);
    assert (closed + [open])[..|closed|] == closed;
  }

  /** A fragment too far from its predecessor opens a new row. */
  lemma SweepCut(s: seq<Entry>, x: Entry, closed: seq<seq<Entry>>, open: seq<Entry>)
    requires s != [] && Segments(s) == closed + [open] && !SameRow(s[|s| - 1], x)
    ensures Segments(s + [x]) == closed + [open] + [[x]]
  {
    SegmentsSnoc(s, x);
  }

  lemma SortRowsSnoc(segments: seq<seq<Entry>>, q: seq<Entry>)
    ensures SortRows(segments + [q]) == SortRows(segments) + [SortBy(q, X0)]
  {
  }

  /** `_group_into_rows` (extractor.py:43-63). */
  method GroupIntoRows(textLines: seq<Entry>) returns (rows: seq<seq<Entry>>)
    ensures rows == Grouped(textLines)
  {
    if textLines == [] {
      return [];
    }
    var validLines := Lines(textLines);
    if validLines == [] {
      return [];
    }
    var sortedLines := SortBy(validLines, Y0);
    rows := SweepRows(sortedLines);
  }

  /**
   * The loop of `_group_into_rows` (extractor.py:49-63): one pass over the
   * fragments sorted by top edge, closing a row whenever the centre jumps by
   * more than the tolerance, each closed row sorted by left edge.
   */
  method SweepRows(sortedLines: seq<Entry>) returns (rows: seq<seq<Entry>>)
    ensures rows == SortRows(Segments(sortedLines))
  {
    rows := [];
    var currentRow: seq<Entry> := [];
    // The source starts from minus infinity; the value is never read before
    // the first fragment sets it, because an empty row always takes the fragment.
    var lastCentre := 0;
    ghost var closed: seq<seq<Entry>> := [];
    for i := 0 to |sortedLines|
      invariant rows == SortRows(closed)
      invariant i == 0 ==> closed == [] && currentRow == []
      invariant i > 0 ==> currentRow != [] && Segments(sortedLines[..i]) == closed + [currentRow]
      invariant i > 0 ==> lastCentre == CentreTwice(sortedLines[i - 1])
    {
      var line := sortedLines[i];
      // Both centres are doubled, so the tolerance is doubled too.
      var centre := CentreTwice(line);
      assert sortedLines[..i + 1] == sortedLines[..i] + [line];
      if currentRow == [] || -2 * Config.YTolerance <= centre - lastCentre <= 2 * Config.YTolerance {
        if i == 0 {
          SweepFirst(line);
        } else {
          SweepJoin(sortedLines[..i], line, closed, currentRow);
        }
        currentRow := currentRow + [line];
      } else {
        SweepCut(sortedLines[..i], line, closed, currentRow);
        SortRowsSnoc(closed, currentRow);
        rows := rows + [SortBy(currentRow, X0)];
        closed := closed + [currentRow];
        currentRow := [line];
      }
      lastCentre := centre;
    }
    assert sortedLines[..|sortedLines|] == sortedLines;
    if currentRow != [] {
      SortRowsSnoc(closed, currentRow);
      rows := rows + [SortBy(currentRow, X0)];
    }
  }
}
