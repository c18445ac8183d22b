/** The gap interpolation of `Interpolate` on one detector column: every run of masked
    rows a..b is replaced, together with the unmasked row a-1 above it, by a straight
    line from row a-2 to row b+1. */
module GapFill {
  import opened Grids

  /** The reads at a-2 and b+1 and the unbounded run scan stay inside the column
      exactly when no row outside 2..|marks|-2 is masked. */
  predicate Admissible(marks: seq<bool>) {
    forall n :: 0 <= n < |marks| && marks[n] ==> 2 <= n <= |marks| - 2
  }

  /** The last row of the run of masked rows that starts at `i`. */
  function RunEnd(marks: seq<bool>, i: nat): (b: nat)
    requires Admissible(marks) && i < |marks| && marks[i]
    decreases |marks| - i
    ensures i <= b && b + 1 < |marks| && !marks[b + 1]
    ensures forall n :: i <= n <= b ==> marks[n]
  {
    if marks[i + 1] then RunEnd(marks, i + 1) else i
  }

  /** The point `k` steps along the straight line from `lo` to `hi` in `span` steps. */
  function Line(lo: real, hi: real, span: nat, k: int): real
    requires span > 0
  {
    lo + k as real * ((hi - lo) / span as real)
  }

  /** The line starts at `lo` and reaches `hi` after `span` steps. */
  lemma LineEnds(lo: real, hi: real, span: nat)
    requires span > 0
    ensures Line(lo, hi, span, 0) == lo
    ensures Line(lo, hi, span, span) == hi
  {
    assert span as real * ((hi - lo) / span as real) == hi - lo;
  }

  /** Rows a-1..b on the line through (a-2, col[a-2]) and (b+1, col[b+1]); the slope is
      the rise over the `b - a + 3` rows between the two anchors. */
  function FillRun(col: seq<real>, a: nat, b: nat): (r: seq<real>)
    requires 2 <= a <= b && b + 1 < |col|
    ensures |r| == |col|
    ensures forall n :: 0 <= n < |col| && (n < a - 1 || b < n) ==> r[n] == col[n]
    ensures forall n :: a - 1 <= n <= b ==> r[n] == Line(col[a - 2], col[b + 1], b - a + 3, n - a + 2)
  {
    seq(|col|, n requires 0 <= n < |col| =>
      if a - 1 <= n <= b then Line(col[a - 2], col[b + 1], b - a + 3, n - a + 2) else col[n])
  }

  /** The column scan from row `i`: an unmasked row is passed over; a masked row starts
      a run that is filled, and the scan resumes two rows past its end. */
  function Scan(col: seq<real>, marks: seq<bool>, i: nat): (r: seq<real>)
    requires |marks| == |col| && Admissible(marks) && i <= |col|
    decreases |col| - i
    ensures |r| == |col|
  {
    if i == |col| then col
    else if marks[i] then
      var b := RunEnd(marks, i);
      Scan(FillRun(col, i, b), marks, b + 2)
    else Scan(col, marks, i + 1)
  }

  /** A scan that meets a masked row fills its run and resumes two rows past its end. */
  lemma ScanFillsRun(col: seq<real>, marks: seq<bool>, i: nat)
    requires |marks| == |col| && Admissible(marks) && i < |col| && marks[i]
    ensures Scan(col, marks, i) == Scan(FillRun(col, i, RunEnd(marks, i)), marks, RunEnd(marks, i) + 2)
  {
  }

  /** A scan that meets an unmasked row passes over it. */
  lemma ScanPassesOver(col: seq<real>, marks: seq<bool>, i: nat)
    requires |marks| == |col| && Admissible(marks) && i < |col| && !marks[i]
    ensures Scan(col, marks, i) == Scan(col, marks, i + 1)
  {
  }

  /** One step of the scan from row `i` leaves `now` and resumes at `next`. */
  predicate ScanStep(col: seq<real>, marks: seq<bool>, i: nat, now: seq<real>, next: nat)
    requires |marks| == |col| && Admissible(marks) && i < |col|
  {
    if marks[i] then now == FillRun(col, i, RunEnd(marks, i)) && next == RunEnd(marks, i) + 2
    else now == col && next == i + 1
  }

  /** A step of the scan does not change where the scan ends up. */
  lemma ScanStepKeeps(col: seq<real>, marks: seq<bool>, i: nat, now: seq<real>, next: nat)
    requires |marks| == |col| && Admissible(marks) && i < |col|
    requires ScanStep(col, marks, i, now, next)
    ensures |now| == |col| && next <= |col|
    ensures Scan(now, marks, next) == Scan(col, marks, i)
  {
    if marks[i] {
      ScanFillsRun(col, marks, i);
    } else {
      ScanPassesOver(col, marks, i);
    }
  }

  /** The interpolated column. */
  function Fill(col: seq<real>, marks: seq<bool>): (r: seq<real>)
    requires |marks| == |col| && Admissible(marks)
    ensures |r| == |col|
  {
    Scan(col, marks, 0)
  }

  /** A run of masked rows that cannot be extended either way (in an admissible mask it
      starts at row 2 or below). */
  predicate MaximalRun(marks: seq<bool>, a: nat, b: nat) {
    2 <= a <= b && b + 1 < |marks| &&
    !marks[a - 1] && !marks[b + 1] && forall n :: a <= n <= b ==> marks[n]
  }

  /** Rows above `i - 1` are not touched by the scan from `i`, and neither is a row that
      is unmasked and has an unmasked row below it. */
  lemma {:induction false} ScanKeeps(col: seq<real>, marks: seq<bool>, i: nat, n: nat)
    requires |marks| == |col| && Admissible(marks) && i <= |col| && n < |col|
    requires n + 1 < i || (!marks[n] && (n + 1 == |col| || !marks[n + 1]))
    ensures Scan(col, marks, i)[n] == col[n]
    decreases |col| - i
  {
    if i == |col| {
    } else if marks[i] {
      var b := RunEnd(marks, i);
      var next := FillRun(col, i, b);
      assert n < i - 1 || b < n;
      ScanKeeps(next, marks, b + 2, n);
    } else {
      ScanKeeps(col, marks, i + 1, n);
    }
  }

  /** Every row that is neither masked nor directly above a masked row keeps its value. */
  lemma FillKeepsUncovered(col: seq<real>, marks: seq<bool>, n: nat)
    requires |marks| == |col| && Admissible(marks) && n < |col|
    requires !marks[n] && (n + 1 == |col| || !marks[n + 1])
    ensures Fill(col, marks)[n] == col[n]
  {
    ScanKeeps(col, marks, 0, n);
  }

  /** The scan that starts at a maximal run a..b fills it on the line from row a-2 to
      row b+1 and touches neither end again. */
  lemma RunStartRamp(col: seq<real>, marks: seq<bool>, a: nat, b: nat, n: nat)
    requires |marks| == |col| && Admissible(marks)
    requires MaximalRun(marks, a, b) && a - 1 <= n <= b
    ensures var r := Scan(col, marks, a);
      r[n] == Line(r[a - 2], col[b + 1], b - a + 3, n - a + 2)
  {
    assert RunEnd(marks, a) == b;
    var next := FillRun(col, a, b);
    ScanFillsRun(col, marks, a);
    ScanKeeps(next, marks, b + 2, n);
    ScanKeeps(next, marks, b + 2, a - 2);
  }

  /** Every run a..b is filled on the line from the final value at a-2 to the original
      value at b+1, rows a-1..b inclusive. */
  lemma {:induction false} ScanRamp(col: seq<real>, marks: seq<bool>, i: nat, a: nat, b: nat, n: nat)
    requires |marks| == |col| && Admissible(marks) && i <= |col|
    requires i == 0 || !marks[i - 1]
    requires MaximalRun(marks, a, b) && i <= a && a - 1 <= n <= b
    ensures var r := Scan(col, marks, i);
      r[n] == Line(r[a - 2], col[b + 1], b - a + 3, n - a + 2)
    decreases |col| - i
  {
    if a == i {
      RunStartRamp(col, marks, a, b, n);
    } else if marks[i] {
      var e := RunEnd(marks, i);
      var next := FillRun(col, i, e);
      ScanFillsRun(col, marks, i);
      assert e + 2 <= a;
      assert next[b + 1] == col[b + 1];
      ScanRamp(next, marks, e + 2, a, b, n);
    } else {
      ScanPassesOver(col, marks, i);
      ScanRamp(col, marks, i + 1, a, b, n);
    }
  }

  /** The interpolation of `Interpolate`, as stated for one maximal run. */
  lemma FillRamp(col: seq<real>, marks: seq<bool>, a: nat, b: nat, n: nat)
    requires |marks| == |col| && Admissible(marks)
    requires MaximalRun(marks, a, b) && a - 1 <= n <= b
    ensures var r := Fill(col, marks);
      r[n] == Line(r[a - 2], col[b + 1], b - a + 3, n - a + 2)
  {
    ScanRamp(col, marks, 0, a, b, n);
  }

  /** A column of seven rows with rows 2..4 masked: row 1, unmasked, is rewritten too,
      and the line runs from row 0 to row 5 rather than from row 1 to row 5. */
  lemma OverwritesRowAboveRun()
    ensures Fill([0.0, 10.0, 99.0, 99.0, 99.0, 30.0, 0.0], [false, false, true, true, true, false, false])
         == [0.0, 6.0, 12.0, 18.0, 24.0, 30.0, 0.0]
  {
    var col := [0.0, 10.0, 99.0, 99.0, 99.0, 30.0, 0.0];
    var marks := [false, false, true, true, true, false, false];
    assert RunEnd(marks, 2) == 4;
    var filled := FillRun(col, 2, 4);
    assert filled == [0.0, 6.0, 12.0, 18.0, 24.0, 30.0, 0.0];
    assert Scan(filled, marks, 6) == filled;
    assert Scan(col, marks, 2) == Scan(filled, marks, 6);
  }

  /** A detector mask whose every mark lies in rows 2..rows-2. */
  ghost predicate GridAdmissible(marks: Grid<bool>, rows: nat, cols: nat)
    requires IsGrid(marks, rows, cols)
  {
    forall i, j :: 0 <= i < rows && 0 <= j < cols && marks[i][j] ==> 2 <= i <= rows - 2
  }

  /** Every column of the mask is admissible. */
  lemma ColumnAdmissible(marks: Grid<bool>, rows: nat, cols: nat, j: nat)
    requires IsGrid(marks, rows, cols) && GridAdmissible(marks, rows, cols) && j < cols
    ensures Admissible(Column(marks, j))
  {
  }

  /** The projection after `Interpolate`: every column filled over its own marks. */
  function FillGrid(p: Grid<real>, marks: Grid<bool>, rows: nat, cols: nat): (q: Grid<real>)
    requires IsGrid(p, rows, cols) && IsGrid(marks, rows, cols) && GridAdmissible(marks, rows, cols)
    ensures IsGrid(q, rows, cols)
    ensures forall i, j :: 0 <= i < rows && 0 <= j < cols ==>
      Admissible(Column(marks, j)) && q[i][j] == Fill(Column(p, j), Column(marks, j))[i]
  {
    assert forall j :: 0 <= j < cols ==> Admissible(Column(marks, j)) by {
      forall j | 0 <= j < cols ensures Admissible(Column(marks, j)) {
        ColumnAdmissible(marks, rows, cols, j);
      }
    }
    seq(rows, i requires 0 <= i < rows =>
      seq(cols, j requires 0 <= j < cols => Fill(Column(p, j), Column(marks, j))[i]))
  }

  /** A mask with no mark leaves the projection as it is. */
  lemma FillGridUnmarked(p: Grid<real>, marks: Grid<bool>, rows: nat, cols: nat)
    requires IsGrid(p, rows, cols) && IsGrid(marks, rows, cols)
    requires forall i, j :: 0 <= i < rows && 0 <= j < cols ==> !marks[i][j]
    ensures GridAdmissible(marks, rows, cols) && FillGrid(p, marks, rows, cols) == p
  {
    var q := FillGrid(p, marks, rows, cols);
    forall i, j | 0 <= i < rows && 0 <= j < cols ensures q[i][j] == p[i][j] {
      FillKeepsUncovered(Column(p, j), Column(marks, j), i);
    }
    GridExt(q, p, rows, cols);
  }
}
