/** The geometry model: calibration-offset lookup, the centred voxel grid and the
    cone-beam projection of a voxel onto the flat detector. */
module Geometry {
  import opened CMath
  import opened Grids

  /** The C remainder `a % 360`, which takes the sign of the dividend. */
  function DegreeRem(a: int): (r: int)
    ensures -360 < r < 360
    ensures a >= 0 ==> r == a % 360
    ensures a < 0 ==> r <= 0 && (r == 0 <==> a % 360 == 0)
    ensures (a - r) % 360 == 0
  {
    if a >= 0 then a % 360 else -((-a) % 360)
  }

  /** Index into the 360-entry calibration tables for a projection angle in degrees:
      the angle rounded to the nearest degree, plus 180 (the projection angle is 180
      degrees from the tube angle), reduced with the C remainder. */
  function OffsetIndex(angle: real): (n: int)
    ensures -360 < n < 360
    ensures (angle + 0.5).Floor >= -180 ==> 0 <= n
    ensures 0 <= n ==> n == ((angle + 0.5).Floor + 180) % 360
    ensures n < 0 <==> (angle + 0.5).Floor + 180 < 0 && ((angle + 0.5).Floor + 180) % 360 != 0
  {
    DegreeRem((angle + 0.5).Floor + 180)
  }

  /** Whole turns do not change a usable table index. */
  lemma OffsetIndexPeriodic(angle: real)
    requires OffsetIndex(angle) >= 0
    ensures OffsetIndex(angle + 360.0) == OffsetIndex(angle)
  {
    assert (angle + 360.0 + 0.5).Floor == (angle + 0.5).Floor + 360;
  }

  /** Angles that round to the same degree read the same table entry. */
  lemma OffsetIndexRounds(a: real, b: real)
    requires (a + 0.5).Floor == (b + 0.5).Floor
    ensures OffsetIndex(a) == OffsetIndex(b)
  {
  }

  /** Coordinate of cell `i` of an `n`-cell axis with spacing `res`, centred on zero. */
  function GridCoord(n: nat, res: real, i: int): real {
    res * (i as real - (n as real - 1.0) / 2.0)
  }

  /** The axis is centred (mirror cells are opposite) and evenly spaced by `res`. */
  lemma GridCoordCentred(n: nat, res: real, i: int)
    ensures GridCoord(n, res, i) + GridCoord(n, res, n - 1 - i) == 0.0
    ensures GridCoord(n, res, i + 1) - GridCoord(n, res, i) == res
  {
    var c := (n as real - 1.0) / 2.0;
    assert (i as real - c) + ((n - 1 - i) as real - c) == 0.0;
    calc {
      GridCoord(n, res, i) + GridCoord(n, res, n - 1 - i);
      res * (i as real - c) + res * ((n - 1 - i) as real - c);
      res * ((i as real - c) + ((n - 1 - i) as real - c));
      0.0;
    }
  }

  /** The detector and its distances, in millimetres and detector cells. */
  datatype Detector = Detector(rows: nat, cols: nat, detectorRes: real,
                               sourceToDetector: real, sourceToAxis: real)

  /** Orientation of one projection: cosine and sine of the gantry angle plus 90 degrees,
      and the calibration offsets for that angle. */
  datatype View = View(cosT: real, sinT: real, yOffset: real, zOffset: real)

  /** In-plane coordinate of voxel column (xk, yj) along the source-to-axis direction. */
  function RotatedX(xk: real, yj: real, v: View): real {
    xk * v.cosT + yj * v.sinT
  }

  /** The projection of (xk, yj) divides by the detector pitch and by the two
      distances from the source; none of them may be zero. */
  predicate RayDefined(d: Detector, xk: real, yj: real, v: View) {
    d.detectorRes != 0.0 &&
    d.sourceToAxis + RotatedX(xk, yj, v) != 0.0 &&
    d.sourceToAxis - RotatedX(xk, yj, v) != 0.0
  }

  /** The part of a voxel's projection shared by every slice: rotated coordinate,
      fractional detector row and the squared magnification weight. */
  datatype Ray = Ray(xr: real, yp: real, scale: real)

  function CastRay(d: Detector, xk: real, yj: real, v: View): (r: Ray)
    requires RayDefined(d, xk, yj, v)
    ensures r.xr == RotatedX(xk, yj, v)
    ensures r.scale > 0.0 <==> d.sourceToAxis != 0.0
    ensures r.scale >= 0.0
  {
    var xr := xk * v.cosT + yj * v.sinT;
    var yr := -xk * v.sinT + yj * v.cosT;
    var ymm := yr * (d.sourceToDetector / (d.sourceToAxis + xr)) + v.yOffset;
    var s := d.sourceToAxis / (d.sourceToAxis - xr);
    SquarePositive(s);
    assert s == 0.0 <==> d.sourceToAxis == 0.0;
    Ray(xr, (d.rows as real - 1.0) / 2.0 - ymm / d.detectorRes, s * s)
  }

  /** Fractional detector column of slice coordinate `zi` on a ray. */
  function DetectorZ(d: Detector, r: Ray, zi: real, v: View): real
    requires d.detectorRes != 0.0 && d.sourceToAxis + r.xr != 0.0
  {
    var zmm := zi * (d.sourceToDetector / (d.sourceToAxis + r.xr)) + v.zOffset;
    zmm / d.detectorRes + (d.cols as real - 1.0) / 2.0
  }

  /** A voxel on the rotation axis in the central plane, with no calibration offset,
      lands on the centre of the detector. */
  lemma IsocentreHitsDetectorCentre(d: Detector, v: View)
    requires d.detectorRes != 0.0 && d.sourceToAxis != 0.0
    requires v.yOffset == 0.0 && v.zOffset == 0.0
    ensures RayDefined(d, 0.0, 0.0, v)
    ensures CastRay(d, 0.0, 0.0, v).yp == (d.rows as real - 1.0) / 2.0
    ensures CastRay(d, 0.0, 0.0, v).scale == 1.0
    ensures DetectorZ(d, CastRay(d, 0.0, 0.0, v), 0.0, v) == (d.cols as real - 1.0) / 2.0
  {
    assert d.sourceToAxis / (d.sourceToAxis - 0.0) == 1.0;
  }

  /** Integer detector cell below and left of a fractional position, and the offsets into it. */
  datatype Cell = Cell(fy: int, fz: int, dy: real, dz: real)

  function Locate(yp: real, zp: real): (c: Cell)
    ensures c.fy as real <= yp < c.fy as real + 1.0
    ensures c.fz as real <= zp < c.fz as real + 1.0
    ensures 0.0 <= c.dy < 1.0 && 0.0 <= c.dz < 1.0
    ensures yp == c.fy as real + c.dy && zp == c.fz as real + c.dz
  {
    Cell(yp.Floor, zp.Floor, yp - yp.Floor as real, zp - zp.Floor as real)
  }

  /** The guard of the backprojector: the integer cell is strictly inside the detector. */
  predicate Interior(c: Cell, rows: int, cols: int) {
    0 < c.fy < rows - 1 && 0 < c.fz < cols - 1
  }

  /** Under the guard all four neighbouring cells are on the detector. */
  lemma InteriorReadsInBounds(c: Cell, rows: int, cols: int)
    requires Interior(c, rows, cols)
    ensures 0 <= c.fy && c.fy + 1 < rows && 0 <= c.fz && c.fz + 1 < cols
  {
  }

  /** Bilinear interpolation of four neighbouring samples. */
  function Bilinear(p00: real, p10: real, p01: real, p11: real, dy: real, dz: real): real {
    p00 * (1.0 - dy) * (1.0 - dz) + p10 * dy * (1.0 - dz) + p01 * (1.0 - dy) * dz + p11 * dy * dz
  }

  /** The four bilinear weights are non-negative and sum to one inside a cell. */
  lemma BilinearWeights(dy: real, dz: real)
    requires 0.0 <= dy <= 1.0 && 0.0 <= dz <= 1.0
    ensures (1.0 - dy) * (1.0 - dz) >= 0.0 && dy * (1.0 - dz) >= 0.0
    ensures (1.0 - dy) * dz >= 0.0 && dy * dz >= 0.0
    ensures (1.0 - dy) * (1.0 - dz) + dy * (1.0 - dz) + (1.0 - dy) * dz + dy * dz == 1.0
  {
    MulNonNegative(1.0 - dy, 1.0 - dz);
    MulNonNegative(dy, 1.0 - dz);
    MulNonNegative(1.0 - dy, dz);
    MulNonNegative(dy, dz);
  }

  /** A convex combination of four values lies between their bounds. */
  lemma ConvexCombination(p00: real, p10: real, p01: real, p11: real,
                          w00: real, w10: real, w01: real, w11: real, lo: real, hi: real)
    requires w00 >= 0.0 && w10 >= 0.0 && w01 >= 0.0 && w11 >= 0.0
    requires w00 + w10 + w01 + w11 == 1.0
    requires lo <= p00 <= hi && lo <= p10 <= hi && lo <= p01 <= hi && lo <= p11 <= hi
    ensures lo <= p00 * w00 + p10 * w10 + p01 * w01 + p11 * w11 <= hi
  {
    MulNonNegative(p00 - lo, w00); MulNonNegative(hi - p00, w00);
    MulNonNegative(p10 - lo, w10); MulNonNegative(hi - p10, w10);
    MulNonNegative(p01 - lo, w01); MulNonNegative(hi - p01, w01);
    MulNonNegative(p11 - lo, w11); MulNonNegative(hi - p11, w11);
    var total := p00 * w00 + p10 * w10 + p01 * w01 + p11 * w11;
    assert total - lo == (p00 - lo) * w00 + (p10 - lo) * w10 + (p01 - lo) * w01 + (p11 - lo) * w11 by {
      assert lo == lo * (w00 + w10 + w01 + w11);
    }
    assert hi - total == (hi - p00) * w00 + (hi - p10) * w10 + (hi - p01) * w01 + (hi - p11) * w11 by {
      assert hi == hi * (w00 + w10 + w01 + w11);
    }
  }

  /** A bilinear sample lies between the smallest and the largest of its four samples. */
  lemma BilinearBounded(p00: real, p10: real, p01: real, p11: real, dy: real, dz: real, lo: real, hi: real)
    requires 0.0 <= dy <= 1.0 && 0.0 <= dz <= 1.0
    requires lo <= p00 <= hi && lo <= p10 <= hi && lo <= p01 <= hi && lo <= p11 <= hi
    ensures lo <= Bilinear(p00, p10, p01, p11, dy, dz) <= hi
  {
    var w00, w10, w01, w11 := (1.0 - dy) * (1.0 - dz), dy * (1.0 - dz), (1.0 - dy) * dz, dy * dz;
    BilinearWeights(dy, dz);
    assert Bilinear(p00, p10, p01, p11, dy, dz) == p00 * w00 + p10 * w10 + p01 * w01 + p11 * w11;
    ConvexCombination(p00, p10, p01, p11, w00, w10, w01, w11, lo, hi);
  }

  /** At the corner of a cell the sample is exactly the corner value. */
  lemma BilinearAtCorner(p00: real, p10: real, p01: real, p11: real)
    ensures Bilinear(p00, p10, p01, p11, 0.0, 0.0) == p00
  {
  }

  /** The detector cell, and the offsets into it, that the voxel at (xk, yj, zi) projects to. */
  function VoxelCell(d: Detector, v: View, xk: real, yj: real, zi: real): Cell
    requires RayDefined(d, xk, yj, v)
  {
    var r := CastRay(d, xk, yj, v);
    Locate(r.yp, DetectorZ(d, r, zi, v))
  }

  /** What one projection `p` adds to the voxel at (xk, yj, zi): the magnification
      weight times the bilinear sample, or nothing when the guard fails. */
  function Contribution(d: Detector, v: View, p: Grid<real>, xk: real, yj: real, zi: real): (c: real)
    requires RayDefined(d, xk, yj, v) && IsGrid(p, d.rows, d.cols)
    ensures !Interior(VoxelCell(d, v, xk, yj, zi), d.rows, d.cols) ==> c == 0.0
  {
    var r := CastRay(d, xk, yj, v);
    var cell := VoxelCell(d, v, xk, yj, zi);
    if Interior(cell, d.rows, d.cols) then
      r.scale * Bilinear(p[cell.fy][cell.fz], p[cell.fy + 1][cell.fz],
                         p[cell.fy][cell.fz + 1], p[cell.fy + 1][cell.fz + 1], cell.dy, cell.dz)
    else 0.0
  }

  /** A contribution is the magnification weight times a value between the smallest and
      the largest sample of the projection. */
  lemma ContributionBounded(d: Detector, v: View, p: Grid<real>, xk: real, yj: real, zi: real,
                            lo: real, hi: real)
    requires RayDefined(d, xk, yj, v) && IsGrid(p, d.rows, d.cols)
    requires lo <= 0.0 <= hi
    requires forall i, j :: 0 <= i < d.rows && 0 <= j < d.cols ==> lo <= p[i][j] <= hi
    ensures var s := CastRay(d, xk, yj, v).scale;
      s * lo <= Contribution(d, v, p, xk, yj, zi) <= s * hi
  {
    var r := CastRay(d, xk, yj, v);
    var cell := VoxelCell(d, v, xk, yj, zi);
    var s := r.scale;
    if Interior(cell, d.rows, d.cols) {
      var b := Bilinear(p[cell.fy][cell.fz], p[cell.fy + 1][cell.fz],
                        p[cell.fy][cell.fz + 1], p[cell.fy + 1][cell.fz + 1], cell.dy, cell.dz);
      BilinearBounded(p[cell.fy][cell.fz], p[cell.fy + 1][cell.fz],
                      p[cell.fy][cell.fz + 1], p[cell.fy + 1][cell.fz + 1], cell.dy, cell.dz, lo, hi);
      MulMonotone(lo, b, s);
      MulMonotone(b, hi, s);
      assert Contribution(d, v, p, xk, yj, zi) == s * b;
    } else {
      MulMonotone(lo, 0.0, s);
      MulMonotone(0.0, hi, s);
      assert lo * s <= 0.0 <= hi * s;
    }
  }
}
