/** The metal mask of the artefact-reduction pass: the detector cells onto which the
    voxels of a previous reconstruction that lie above a threshold project. */
module Metal {
  import opened Grids
  import opened Geometry
  import opened GapFill

  /** A reconstructed volume as a value, indexed [slice][row][column]. */
  type Volume = seq<seq<seq<real>>>

  ghost predicate IsVolume(v: Volume, slices: nat, rows: nat, cols: nat) {
    |v| == slices && (forall i :: 0 <= i < slices ==> |v[i]| == rows) &&
    forall i, j :: 0 <= i < slices && 0 <= j < rows ==> |v[i][j]| == cols
  }

  /** What the marking of one projection depends on: the detector, the view, the voxel
      coordinates along x (columns), y (rows) and z (slices), the previous volume and
      the threshold above which a voxel counts as metal. */
  datatype Scene = Scene(d: Detector, v: View, x: seq<real>, y: seq<real>, z: seq<real>, prev: Volume, level: real)

  /** Every voxel column can be projected and the volume matches the grid. */
  ghost predicate WellFormed(s: Scene) {
    IsVolume(s.prev, |s.z|, |s.y|, |s.x|) &&
    forall j, k :: 0 <= j < |s.y| && 0 <= k < |s.x| ==> RayDefined(s.d, s.x[k], s.y[j], s.v)
  }

  /** Voxel (i, j, k) is metal, its cell passes the backprojector's guard, and detector
      cell (r, c) is one of the four corners of that cell. */
  ghost predicate Hits(s: Scene, i: nat, j: nat, k: nat, r: int, c: int)
    requires WellFormed(s) && i < |s.z| && j < |s.y| && k < |s.x|
  {
    var cell := VoxelCell(s.d, s.v, s.x[k], s.y[j], s.z[i]);
    s.prev[i][j][k] > s.level && Interior(cell, s.d.rows, s.d.cols) &&
    cell.fy <= r <= cell.fy + 1 && cell.fz <= c <= cell.fz + 1
  }

  /** Some voxel among slices 0..n-1 of voxel column (j, k) hits (r, c). */
  ghost predicate ColumnHits(s: Scene, j: nat, k: nat, n: nat, r: int, c: int)
    requires WellFormed(s) && j < |s.y| && k < |s.x| && n <= |s.z|
  {
    exists i :: 0 <= i < n && Hits(s, i, j, k, r, c)
  }

  /** Some voxel among columns 0..n-1 of voxel row `j` hits (r, c). */
  ghost predicate RowHits(s: Scene, j: nat, n: nat, r: int, c: int)
    requires WellFormed(s) && j < |s.y| && n <= |s.x|
  {
    exists k :: 0 <= k < n && ColumnHits(s, j, k, |s.z|, r, c)
  }

  /** Some voxel among rows 0..n-1 hits (r, c). */
  ghost predicate VolumeHits(s: Scene, n: nat, r: int, c: int)
    requires WellFormed(s) && n <= |s.y|
  {
    exists j :: 0 <= j < n && RowHits(s, j, |s.x|, r, c)
  }

  /** Extending the slices searched by one adds that slice's voxel. */
  lemma ColumnHitsStep(s: Scene, j: nat, k: nat, n: nat, r: int, c: int)
    requires WellFormed(s) && j < |s.y| && k < |s.x| && n < |s.z|
    ensures ColumnHits(s, j, k, n + 1, r, c) <==> ColumnHits(s, j, k, n, r, c) || Hits(s, n, j, k, r, c)
  {
    if ColumnHits(s, j, k, n + 1, r, c) && !Hits(s, n, j, k, r, c) {
      var i :| 0 <= i < n + 1 && Hits(s, i, j, k, r, c);
      assert i < n;
    }
  }

  /** Extending the columns searched by one adds that voxel column. */
  lemma RowHitsStep(s: Scene, j: nat, n: nat, r: int, c: int)
    requires WellFormed(s) && j < |s.y| && n < |s.x|
    ensures RowHits(s, j, n + 1, r, c) <==> RowHits(s, j, n, r, c) || ColumnHits(s, j, n, |s.z|, r, c)
  {
    if RowHits(s, j, n + 1, r, c) && !ColumnHits(s, j, n, |s.z|, r, c) {
      var k :| 0 <= k < n + 1 && ColumnHits(s, j, k, |s.z|, r, c);
      assert k < n;
    }
  }

  /** Extending the rows searched by one adds that voxel row. */
  lemma VolumeHitsStep(s: Scene, n: nat, r: int, c: int)
    requires WellFormed(s) && n < |s.y|
    ensures VolumeHits(s, n + 1, r, c) <==> VolumeHits(s, n, r, c) || RowHits(s, n, |s.x|, r, c)
  {
    if VolumeHits(s, n + 1, r, c) && !RowHits(s, n, |s.x|, r, c) {
      var j :| 0 <= j < n + 1 && RowHits(s, j, |s.x|, r, c);
      assert j < n;
    }
  }

  /** The mask written for one projection: a detector cell is marked when some metal
      voxel hits it. */
  ghost function Mask(s: Scene): (m: Grid<bool>)
    requires WellFormed(s)
    ensures IsGrid(m, s.d.rows, s.d.cols)
    ensures forall r, c :: 0 <= r < s.d.rows && 0 <= c < s.d.cols ==> m[r][c] == VolumeHits(s, |s.y|, r, c)
  {
    seq(s.d.rows, r => seq(s.d.cols, c => VolumeHits(s, |s.y|, r, c)))
  }

  /** A cell is marked exactly when some metal voxel of the whole volume hits it. */
  lemma MaskExactly(s: Scene, r: nat, c: nat)
    requires WellFormed(s) && r < s.d.rows && c < s.d.cols
    ensures Mask(s)[r][c] <==>
      exists i, j, k :: 0 <= i < |s.z| && 0 <= j < |s.y| && 0 <= k < |s.x| && Hits(s, i, j, k, r, c)
  {
    if Mask(s)[r][c] {
      var j :| 0 <= j < |s.y| && RowHits(s, j, |s.x|, r, c);
      var k :| 0 <= k < |s.x| && ColumnHits(s, j, k, |s.z|, r, c);
      var i :| 0 <= i < |s.z| && Hits(s, i, j, k, r, c);
    }
    if exists i, j, k :: 0 <= i < |s.z| && 0 <= j < |s.y| && 0 <= k < |s.x| && Hits(s, i, j, k, r, c) {
      var i, j, k :| 0 <= i < |s.z| && 0 <= j < |s.y| && 0 <= k < |s.x| && Hits(s, i, j, k, r, c);
      assert ColumnHits(s, j, k, |s.z|, r, c);
      assert RowHits(s, j, |s.x|, r, c);
    }
  }

  /** Every metal voxel whose cell passes the guard lands with its cell on detector
      rows 2..rows-3, so that each marked run has a row above and below it to anchor
      the straight line that replaces it. */
  ghost predicate RowsInside(s: Scene)
    requires WellFormed(s)
  {
    forall i, j, k :: 0 <= i < |s.z| && 0 <= j < |s.y| && 0 <= k < |s.x| ==>
      var cell := VoxelCell(s.d, s.v, s.x[k], s.y[j], s.z[i]);
      s.prev[i][j][k] > s.level && Interior(cell, s.d.rows, s.d.cols) ==> 2 <= cell.fy <= s.d.rows - 3
  }

  /** Under `RowsInside` every marked row is one that the gap filler can handle. */
  lemma MaskRowsAdmissible(s: Scene, r: nat, c: nat)
    requires WellFormed(s) && RowsInside(s) && r < s.d.rows && c < s.d.cols && Mask(s)[r][c]
    ensures 2 <= r <= s.d.rows - 2
  {
    MaskExactly(s, r, c);
  }

  /** Under `RowsInside` the whole mask is one the gap filler accepts. */
  lemma MaskAdmissible(s: Scene)
    requires WellFormed(s) && RowsInside(s)
    ensures GridAdmissible(Mask(s), s.d.rows, s.d.cols)
  {
    forall r, c | 0 <= r < s.d.rows && 0 <= c < s.d.cols && Mask(s)[r][c] {
      MaskRowsAdmissible(s, r, c);
    }
  }

  /** The mask marks only cells next to the guard's interior: never the first row or
      column of the detector. */
  lemma MaskAwayFromEdges(s: Scene, r: nat, c: nat)
    requires WellFormed(s) && r < s.d.rows && c < s.d.cols && Mask(s)[r][c]
    ensures 1 <= r && 1 <= c
  {
    MaskExactly(s, r, c);
  }

  /** Without a voxel above the threshold nothing is marked. */
  lemma NoMetalNoMask(s: Scene, r: nat, c: nat)
    requires WellFormed(s) && r < s.d.rows && c < s.d.cols
    requires forall i, j, k :: 0 <= i < |s.z| && 0 <= j < |s.y| && 0 <= k < |s.x| ==> s.prev[i][j][k] <= s.level
    ensures !Mask(s)[r][c]
  {
    MaskExactly(s, r, c);
  }

  /** One metal voxel on the rotation axis, seen square-on by a 4 x 4 detector, lands
      on cell (1, 1) and marks detector row 1. The interpolation of that column then
      has no row two above the run to anchor its line: the mask is not one the gap
      filler accepts. */
  lemma AxisVoxelMarksRowOne()
    ensures var s := Scene(Detector(4, 4, 1.0, 100.0, 50.0), View(1.0, 0.0, 0.0, 0.0), [0.0], [0.0], [0.0], [[[100.0]]], 10.0);
      WellFormed(s) && Mask(s)[1][1] && !GridAdmissible(Mask(s), 4, 4)
  {
    var s := Scene(Detector(4, 4, 1.0, 100.0, 50.0), View(1.0, 0.0, 0.0, 0.0), [0.0], [0.0], [0.0], [[[100.0]]], 10.0);
    assert VoxelCell(s.d, s.v, 0.0, 0.0, 0.0) == Cell(1, 1, 0.5, 0.5);
    assert Hits(s, 0, 0, 0, 1, 1);
    MaskExactly(s, 1, 1);
  }
}
