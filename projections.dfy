/** The `Projection` object: the scan header, the blank scan and the cosine map fixed at
    construction, the cursor over the projection files, and the working projection `pd`
    with its filter kernel `G` and transform buffer `temp`. */
module Projections {
  import opened CMath
  import opened Grids
  import opened Geometry
  import opened BeamHardening
  import opened FrameSource
  import opened FilterKernel
  import opened ColumnFilter
  import opened GapFill
  import opened Numerics

  /** The scan parameters the constructor reads from the header of the first file. */
  datatype ScanHeader = ScanHeader(rows: nat, cols: nat, numProj: nat, detectorRes: real,
                                   sourceToDetector: real, sourceToAxis: real,
                                   yOffsets: seq<real>, zOffsets: seq<real>, kVp: int)

  /** Offset of detector index `i` on an axis of `n` cells, scaled back to the rotation
      axis by the source-to-axis over source-to-detector ratio. */
  function AxisOffset(h: ScanHeader, n: nat, i: nat): real
    requires h.sourceToDetector != 0.0
  {
    GridCoord(n, h.detectorRes, i) * (h.sourceToAxis / h.sourceToDetector)
  }

  /** The cosine weight of detector cell (i, j): the source-to-axis distance over the
      distance to the cell, both scaled to the axis. The in-plane offset of the column is
      computed from the row index `i`, not from `j`. */
  function CosineWeight(h: ScanHeader, sqrt: Sqrt, i: nat, j: nat): (w: real)
    requires h.sourceToAxis != 0.0 && h.sourceToDetector != 0.0
    ensures h.sourceToAxis > 0.0 ==> w > 0.0
    ensures h.sourceToAxis < 0.0 ==> w < 0.0
  {
    var y := AxisOffset(h, h.rows, i);
    var z := AxisOffset(h, h.cols, i);
    var root := Distance(sqrt, h.sourceToAxis, y, z);
    DivSign(h.sourceToAxis, root);
    h.sourceToAxis / root
  }

  /** The cosine weights of the whole detector. */
  function CosineMap(h: ScanHeader, sqrt: Sqrt): (g: Grid<real>)
    requires h.sourceToAxis != 0.0 && h.sourceToDetector != 0.0
    ensures IsGrid(g, h.rows, h.cols)
  {
    seq(h.rows, i requires 0 <= i < h.rows =>
      seq(h.cols, j requires 0 <= j < h.cols => CosineWeight(h, sqrt, i, j)))
  }

  /** The blank-scan search: the first file whose ImageType names a blank scan, or the
      last file with `found` false when there is none. */
  method FindBlank(frames: seq<Frame>) returns (k: nat, found: bool)
    requires |frames| > 0
    ensures k < |frames|
    ensures found <==> FirstBlank(frames, 0).Some?
    ensures found ==> FirstBlank(frames, 0) == Some(k)
  {
    k := 0;
    while true
      invariant k < |frames|
      invariant forall m :: 0 <= m < k ==> !IsBlankScan(frames[m])
      decreases |frames| - k
    {
      if IsBlankScan(frames[k]) {
        return k, true;
      } else if k + 1 == |frames| {
        return k, false;
      }
      k := k + 1;
    }
  }

  /** Samples stored row by row, copied into a grid. */
  method ReadGrid(pixels: seq<int>, rows: nat, cols: nat) returns (g: Grid<real>)
    requires |pixels| == rows * cols
    ensures g == Reshape(pixels, rows, cols)
  {
    ghost var target := Reshape(pixels, rows, cols);
    g := [];
    for i := 0 to rows
      invariant g == target[..i]
    {
      var row: seq<real> := [];
      for j := 0 to cols
        invariant row == target[i][..j]
      {
        row := row + [pixels[FlatIndex(rows, cols, i, j)] as real];
      }
      assert row == target[i];
      assert target[..i + 1] == target[..i] + [target[i]];
      g := g + [row];
    }
  }

  /** The grid used in place of a missing blank scan. */
  method ZeroGrid(rows: nat, cols: nat) returns (g: Grid<real>)
    ensures g == Constant(rows, cols, 0.0)
  {
    ghost var target := Constant(rows, cols, 0.0);
    g := [];
    for i := 0 to rows
      invariant g == target[..i]
    {
      var row: seq<real> := [];
      for j := 0 to cols
        invariant row == target[i][..j]
      {
        row := row + [0.0];
      }
      assert row == target[i];
      assert target[..i + 1] == target[..i] + [target[i]];
      g := g + [row];
    }
  }

  /** The loop that fills the cosine map, row offset computed once per row. */
  method BuildCosineMap(h: ScanHeader, sqrt: Sqrt) returns (w: Grid<real>)
    requires h.sourceToAxis != 0.0 && h.sourceToDetector != 0.0
    ensures w == CosineMap(h, sqrt)
  {
    ghost var target := CosineMap(h, sqrt);
    w := [];
    for i := 0 to h.rows
      invariant w == target[..i]
    {
      var y := AxisOffset(h, h.rows, i);
      var row: seq<real> := [];
      for j := 0 to h.cols
        invariant row == target[i][..j]
      {
        var z := AxisOffset(h, h.cols, i);
        row := row + [h.sourceToAxis / Distance(sqrt, h.sourceToAxis, y, z)];
      }
      assert row == target[i];
      assert target[..i + 1] == target[..i] + [target[i]];
      w := w + [row];
    }
  }

  /** The length of a vector with a non-zero first component, which is positive. */
  function Distance(sqrt: Sqrt, a: real, b: real, c: real): (d: real)
    requires a != 0.0
    ensures d > 0.0
  {
    ProductSquareSign(a);
    ProductSquareSign(b);
    ProductSquareSign(c);
    SqrtPositive(sqrt, Product(a, a) + Product(b, b) + Product(c, c));
    sqrt(Product(a, a) + Product(b, b) + Product(c, c))
  }

  /** Because of the row index used for the column offset, the weight of a cell depends
      only on its row: it is the same in every column. */
  lemma CosineWeightIgnoresColumn(h: ScanHeader, sqrt: Sqrt, i: nat, j: nat, j2: nat)
    requires h.sourceToAxis != 0.0 && h.sourceToDetector != 0.0
    ensures CosineWeight(h, sqrt, i, j) == CosineWeight(h, sqrt, i, j2)
  {
  }

  /** One normalised sample: the log attenuation against the blank scan, corrected for
      beam hardening at the scan's voltage. */
  function Attenuation(lib: MathLib, kVp: int, blankSample: real, raw: real): real {
    Correct(kVp, lib.logRatio(blankSample, raw))
  }

  /** Samples stored row by row, as a grid. */
  function Reshape(pixels: seq<int>, rows: nat, cols: nat): (g: Grid<real>)
    requires |pixels| == rows * cols
    ensures IsGrid(g, rows, cols)
    ensures forall i, j :: 0 <= i < rows && 0 <= j < cols ==> g[i][j] == pixels[FlatIndex(rows, cols, i, j)] as real
  {
    seq(rows, i requires 0 <= i < rows =>
      seq(cols, j requires 0 <= j < cols => pixels[FlatIndex(rows, cols, i, j)] as real))
  }

  /** `pd - ratio * other`, entry by entry. */
  function Difference(p: Grid<real>, other: Grid<real>, ratio: real, rows: nat, cols: nat): (q: Grid<real>)
    requires IsGrid(p, rows, cols) && IsGrid(other, rows, cols)
    ensures IsGrid(q, rows, cols)
    ensures forall i, j :: 0 <= i < rows && 0 <= j < cols ==> q[i][j] == p[i][j] - ratio * other[i][j]
  {
    seq(rows, i requires 0 <= i < rows =>
      seq(cols, j requires 0 <= j < cols => p[i][j] - ratio * other[i][j]))
  }

  /** Subtracting with the opposite ratio restores the projection. */
  lemma DifferenceUndone(p: Grid<real>, other: Grid<real>, ratio: real, rows: nat, cols: nat)
    requires IsGrid(p, rows, cols) && IsGrid(other, rows, cols)
    ensures Difference(Difference(p, other, ratio, rows, cols), other, -ratio, rows, cols) == p
  {
    GridExt(Difference(Difference(p, other, ratio, rows, cols), other, -ratio, rows, cols), p, rows, cols);
  }

  /** Subtracting a projection from itself scales it by `1 - ratio`. */
  lemma DifferenceWithItself(p: Grid<real>, ratio: real, rows: nat, cols: nat, i: nat, j: nat)
    requires IsGrid(p, rows, cols) && i < rows && j < cols
    ensures Difference(p, p, ratio, rows, cols)[i][j] == (1.0 - ratio) * p[i][j]
  {
  }

  /** A new kernel of `n` bins, all one (no filtering). */
  method UnityKernel(n: nat) returns (g: array<real>)
    ensures fresh(g) && g.Length == n
    ensures forall t :: 0 <= t < n ==> g[t] == 1.0
  {
    g := new real[n];
    for t := 0 to n
      invariant forall u :: 0 <= u < t ==> g[u] == 1.0
    {
      g[t] := 1.0;
    }
  }

  /** The marks of an `int` mask: every non-zero cell. */
  ghost function Marks(mask: array2<int>): (g: Grid<bool>)
    reads mask
    ensures IsGrid(g, mask.Length0, mask.Length1)
    ensures forall i, j :: 0 <= i < mask.Length0 && 0 <= j < mask.Length1 ==> g[i][j] == (mask[i, j] != 0)
  {
    seq(mask.Length0, i requires 0 <= i < mask.Length0 reads mask =>
      seq(mask.Length1, j requires 0 <= j < mask.Length1 reads mask => mask[i, j] != 0))
  }

  class Projection {
    const rows: nat
    const cols: nat
    const numProj: nat
    const detectorRes: real
    const sourceToDetector: real
    const sourceToAxis: real
    const yOffsets: seq<real>
    const zOffsets: seq<real>
    const kVp: int

    /** The projection files, in directory order. */
    const frames: seq<Frame>
    const lib: MathLib

    /** The blank scan, all zero when there is none. */
    const blank: Grid<real>
    /** The cosine weighting map. */
    const cosTheta: Grid<real>

    /** The working projection, rows by cols. */
    const pd: array2<real>
    /** The filter kernel, `2 * rows` bins. */
    const G: array<real>
    /** The interleaved complex transform buffer, `4 * rows` reals. */
    const temp: array<real>

    var projAngle: real
    /** -1 when no enumeration is open, else the index of the last file read. */
    var ff: int

    /** Facts about the constant parts of the object. */
    ghost predicate Shaped() {
      pd.Length0 == rows && pd.Length1 == cols && G.Length == 2 * rows && temp.Length == 4 * rows &&
      G != temp &&
      |yOffsets| == 360 && |zOffsets| == 360 &&
      sourceToAxis != 0.0 && sourceToDetector != 0.0 &&
      (forall k :: 0 <= k < |frames| ==> |frames[k].pixels| == rows * cols) &&
      IsGrid(blank, rows, cols) && IsGrid(cosTheta, rows, cols)
    }

    ghost predicate Valid()
      reads this
    {
      Shaped() && IsCursor(frames, ff)
    }

    function Header(): ScanHeader {
      ScanHeader(rows, cols, numProj, detectorRes, sourceToDetector, sourceToAxis, yOffsets, zOffsets, kVp)
    }

    function DetectorGeometry(): Detector {
      Detector(rows, cols, detectorRes, sourceToDetector, sourceToAxis)
    }

    /** Opens the scan: the blank scan is the first file whose ImageType names a blank
        scan (all zero when none does), the cosine map is filled, the kernel is set to
        unity and no enumeration is left open. */
    constructor (frames: seq<Frame>, h: ScanHeader, lib: MathLib)
      requires |frames| > 0
      requires |h.yOffsets| == 360 && |h.zOffsets| == 360
      requires h.sourceToAxis != 0.0 && h.sourceToDetector != 0.0
      requires forall k :: 0 <= k < |frames| ==> |frames[k].pixels| == h.rows * h.cols
      ensures Valid() && fresh(pd) && fresh(G) && fresh(temp)
      ensures this.frames == frames && this.lib == lib && Header() == h
      ensures ff == -1
      ensures FirstBlank(frames, 0).Some? ==>
        blank == Reshape(frames[FirstBlank(frames, 0).value].pixels, h.rows, h.cols)
      ensures FirstBlank(frames, 0).None? ==> blank == Constant(h.rows, h.cols, 0.0)
      ensures cosTheta == CosineMap(h, lib.sqrt)
      ensures forall t :: 0 <= t < 2 * h.rows ==> G[t] == 1.0
    {
      rows := h.rows;
      cols := h.cols;
      numProj := h.numProj;
      detectorRes := h.detectorRes;
      sourceToDetector := h.sourceToDetector;
      sourceToAxis := h.sourceToAxis;
      yOffsets := h.yOffsets;
      zOffsets := h.zOffsets;
      kVp := h.kVp;
      this.frames := frames;
      this.lib := lib;
      pd := new real[h.rows, h.cols];
      temp := new real[4 * h.rows];

      var k, found := FindBlank(frames);
      var b: Grid<real>;
      if found {
        b := ReadGrid(frames[k].pixels, h.rows, h.cols);
      } else {
        b := ZeroGrid(h.rows, h.cols);
      }
      blank := b;
      var w := BuildCosineMap(h, lib.sqrt);
      cosTheta := w;
      ff := -1;
      projAngle := 0.0;

      var g := UnityKernel(2 * h.rows);
      G := g;
    }

    /** Index into the calibration tables for the current angle. */
    function OffsetSlot(): (n: int)
      reads this
      requires OffsetIndex(projAngle) >= 0
      ensures 0 <= n < 360
      ensures n == ((projAngle + 0.5).Floor + 180) % 360
    {
      OffsetIndex(projAngle)
    }

    /** The y calibration offset for the current angle. Both offsets read the same slot. */
    function GetYOffset(): (r: real)
      reads this
      requires Valid() && OffsetIndex(projAngle) >= 0
      ensures r == yOffsets[OffsetSlot()]
    {
      yOffsets[OffsetIndex(projAngle)]
    }

    /** The z calibration offset for the current angle. */
    function GetZOffset(): (r: real)
      reads this
      requires Valid() && OffsetIndex(projAngle) >= 0
      ensures r == zOffsets[OffsetSlot()]
    {
      zOffsets[OffsetIndex(projAngle)]
    }

    /** Fills `G` with the kernel of a family and cutoff, in place: ramp, cutoff, window,
        then the mirror loop from wherever the preceding loop stopped. */
    method CreateFilter(family: Family, cutoff: real)
      requires Valid() && rows > 0 && ZeroFrom(rows, cutoff) >= 0
      modifies G
      ensures G[..] == Kernel(old(G[..]), rows, family, cutoff, lib.window)
    {
      ghost var prev := G[..];
      var i := RampPhase(cutoff);
      match family {
        case RamLak =>
        case SheppLogan =>
          i := WindowPhase(family, cutoff);
        case Hamming =>
          i := WindowPhase(family, cutoff);
        case Hanning =>
          i := WindowPhase(family, cutoff);
        case Cosine =>
          i := WindowPhase(family, cutoff);
        case Blackman =>
          i := 0;
          while i <= rows
            invariant 0 <= i <= rows + 1
            invariant forall t :: 0 <= t < i ==> G[t] == 1.0
            invariant forall t :: rows < t < 2 * rows ==> G[t] == prev[t]
          {
            G[i] := 1.0;
            i := i + 1;
          }
      }
      assert i == MirrorFrom(rows, family, cutoff);
      MirrorPhase(i);
      assert G[..] == Kernel(prev, rows, family, cutoff, lib.window);
    }

    /** The mirror loop, from bin `from` to the end: each upper bin copies its image
        below `rows`. */
    method MirrorPhase(from: int)
      requires Valid() && rows < from
      modifies G
      ensures forall t :: 0 <= t < 2 * rows && from <= t ==> G[t] == old(G[2 * rows - t])
      ensures forall t :: 0 <= t < 2 * rows && t < from ==> G[t] == old(G[t])
    {
      var i := from;
      while i < 2 * rows
        invariant from <= i && (i <= 2 * rows || i == from)
        invariant forall t :: 0 <= t < 2 * rows && from <= t < i ==> G[t] == old(G[2 * rows - t])
        invariant forall t :: 0 <= t < 2 * rows && !(from <= t < i) ==> G[t] == old(G[t])
      {
        G[i] := G[2 * rows - i];
        i := i + 1;
      }
    }

    /** The ramp loop and the cutoff loop; returns the index the cutoff loop stopped at. */
    method RampPhase(cutoff: real) returns (i: int)
      requires Valid() && rows > 0 && ZeroFrom(rows, cutoff) >= 0
      modifies G
      ensures i == if ZeroFrom(rows, cutoff) <= rows then rows + 1 else ZeroFrom(rows, cutoff)
      ensures forall t :: 0 <= t <= rows ==> G[t] == Ramp(rows, cutoff, t)
      ensures forall t :: rows < t < 2 * rows ==> G[t] == old(G[t])
    {
      i := 0;
      while i <= rows
        invariant 0 <= i <= rows + 1
        invariant forall t :: 0 <= t < i ==> G[t] == t as real / rows as real
        invariant forall t :: rows < t < 2 * rows ==> G[t] == old(G[t])
      {
        G[i] := i as real / rows as real;
        i := i + 1;
      }
      var z := ZeroFrom(rows, cutoff);
      i := z;
      while i <= rows
        invariant z <= i && (i <= rows + 1 || i == z)
        invariant forall t :: 0 <= t <= rows && z <= t < i ==> G[t] == 0.0
        invariant forall t :: 0 <= t <= rows && !(z <= t < i) ==> G[t] == t as real / rows as real
        invariant forall t :: rows < t < 2 * rows ==> G[t] == old(G[t])
      {
        G[i] := 0.0;
        i := i + 1;
      }
    }

    /** The window loop shared by the four windowed families; leaves the index at `rows + 1`. */
    method WindowPhase(family: Family, cutoff: real) returns (i: int)
      requires Valid() && rows > 0
      requires HasCase(family) && family != RamLak
      requires forall t :: 0 <= t <= rows ==> G[t] == Ramp(rows, cutoff, t)
      modifies G
      ensures i == rows + 1
      ensures forall t :: 0 <= t <= rows ==> G[t] == Base(rows, family, cutoff, lib.window, t)
      ensures forall t :: rows < t < 2 * rows ==> G[t] == old(G[t])
    {
      ghost var g0 := G[..];
      i := 1;
      while i <= rows
        invariant 1 <= i <= rows + 1
        invariant forall t :: 1 <= t < i ==> G[t] == Product(g0[t], lib.window(family, Omega(rows, t), cutoff))
        invariant forall t :: 0 <= t < 2 * rows && !(1 <= t < i) ==> G[t] == g0[t]
      {
        G[i] := Product(G[i], lib.window(family, Omega(rows, i), cutoff));
        i := i + 1;
      }
      forall t | 1 <= t <= rows
        ensures G[t] == Base(rows, family, cutoff, lib.window, t)
      {
        WindowStep(g0[t], rows, family, cutoff, lib.window, t);
      }
    }

    /** The projection file `k` normalised against the blank scan. */
    function Normalized(k: nat): (g: Grid<real>)
      requires Shaped() && k < |frames|
      ensures IsGrid(g, rows, cols)
      ensures forall i, j :: 0 <= i < rows && 0 <= j < cols ==>
        g[i][j] == Attenuation(lib, kVp, blank[i][j], frames[k].pixels[FlatIndex(rows, cols, i, j)] as real)
    {
      seq(rows, i requires 0 <= i < rows =>
        seq(cols, j requires 0 <= j < cols =>
          Attenuation(lib, kVp, blank[i][j], frames[k].pixels[FlatIndex(rows, cols, i, j)] as real)))
    }

    /** Reads the next projection file that is not a blank scan into `pd` and returns 1;
        when there is none, closes the enumeration (the cursor goes back to -1, so the
        next call starts again from the first file) and returns 0. */
    method LoadNextProj() returns (loaded: int)
      requires Valid()
      modifies this, pd
      ensures Valid()
      ensures NextProjection(frames, old(ff)).None? ==>
        loaded == 0 && ff == -1 && projAngle == old(projAngle) && Snapshot(pd) == old(Snapshot(pd))
      ensures NextProjection(frames, old(ff)).Some? ==>
        var k := NextProjection(frames, old(ff)).value;
        loaded == 1 && ff == k && projAngle == frames[k].angle && Snapshot(pd) == Normalized(k)
    {
      var found := AdvanceCursor();
      if !found {
        return 0;
      }
      ReadProjection(ff);
      projAngle := frames[ff].angle;
      return 1;
    }

    /** The enumeration loop of `LoadNextProj`: moves the cursor past blank scans to the
        next projection file, or closes the enumeration when the files run out. */
    method AdvanceCursor() returns (found: bool)
      requires Valid()
      modifies this
      ensures Valid() && projAngle == old(projAngle)
      ensures found <==> NextProjection(frames, old(ff)).Some?
      ensures found ==> ff == NextProjection(frames, old(ff)).value
      ensures !found ==> ff == -1
    {
      ghost var target := NextProjection(frames, ff);
      while true
        invariant Valid() && projAngle == old(projAngle)
        invariant NextProjection(frames, ff) == target
        decreases |frames| - ff
      {
        if ff == -1 {
          if |frames| == 0 {
            return false;
          }
          ff := 0;
        } else {
          if ff + 1 == |frames| {
            ff := -1;
            return false;
          }
          ff := ff + 1;
        }
        if !IsBlankScan(frames[ff]) {
          return true;
        }
      }
    }

    /** The sample loop of `LoadNextProj`: file `k` normalised into `pd`. */
    method ReadProjection(k: nat)
      requires Valid() && k < |frames|
      modifies pd
      ensures Snapshot(pd) == Normalized(k)
    {
      ghost var target := Normalized(k);
      for i := 0 to rows
        invariant forall r, c :: 0 <= r < i && 0 <= c < cols ==> pd[r, c] == target[r][c]
      {
        ReadRow(k, i, target[i]);
      }
      GridExt(Snapshot(pd), target, rows, cols);
    }

    /** Row `i` of file `k`, normalised into row `i` of `pd`. */
    method ReadRow(k: nat, i: nat, ghost row: seq<real>)
      requires Shaped() && k < |frames| && i < rows
      requires row == Normalized(k)[i]
      modifies pd
      ensures forall c :: 0 <= c < cols ==> pd[i, c] == row[c]
      ensures forall r, c :: 0 <= r < rows && r != i && 0 <= c < cols ==> pd[r, c] == old(pd[r, c])
    {
      for j := 0 to cols
        invariant forall c :: 0 <= c < j ==> pd[i, c] == row[c]
        invariant forall r, c :: 0 <= r < rows && r != i && 0 <= c < cols ==> pd[r, c] == old(pd[r, c])
      {
        pd[i, j] := Attenuation(lib, kVp, blank[i][j], frames[k].pixels[FlatIndex(rows, cols, i, j)] as real);
      }
    }

    /** Closes the enumeration if one is open. */
    method CloseFindFile()
      requires Valid()
      modifies this
      ensures Valid() && ff == -1 && projAngle == old(projAngle)
    {
      if ff == -1 {
        return;
      }
      ff := -1;
    }

    /** The transform applied in place to `temp`. */
    method Transform(direction: int)
      requires Valid()
      modifies temp
      ensures temp[..] == lib.fft(old(temp[..]), direction)
    {
      var out := lib.fft(temp[..], direction);
      forall t | 0 <= t < temp.Length {
        temp[t] := out[t];
      }
      assert temp[..] == out;
    }

    /** Filters column `j` of `pd` through `temp`. */
    method FilterColumnAt(j: nat)
      requires Valid() && j < cols
      modifies pd, temp
      ensures forall r :: 0 <= r < rows ==> pd[r, j] == FilterColumn(lib.fft, old(Column(Snapshot(pd), j)), G[..])[r]
      ensures forall r, c :: 0 <= r < rows && 0 <= c < cols && c != j ==> pd[r, c] == old(pd[r, c])
    {
      ghost var col := Column(Snapshot(pd), j);
      PackColumn(j);
      Transform(1);
      ScaleBins();
      Transform(-1);
      assert temp[..] == FilteredBuffer(lib.fft, col, G[..]);
      UnpackColumn(j);
    }

    /** The first loops of a column's filtering: column `j` loaded into `temp`. */
    method PackColumn(j: nat)
      requires Valid() && j < cols
      modifies temp
      ensures temp[..] == Pack(Column(Snapshot(pd), j))
    {
      ghost var col := Column(Snapshot(pd), j);
      var i := 0;
      while i < rows
        invariant 0 <= i <= rows
        invariant forall b :: 0 <= b < i ==> temp[2 * b] == col[b] && temp[2 * b + 1] == 0.0
      {
        temp[2 * i] := pd[i, j];
        temp[2 * i + 1] := 0.0;
        i := i + 1;
      }
      while i < 2 * rows
        invariant rows <= i <= 2 * rows
        invariant forall b :: 0 <= b < rows ==> temp[2 * b] == col[b] && temp[2 * b + 1] == 0.0
        invariant forall t :: 2 * rows <= t < 2 * i ==> temp[t] == 0.0
      {
        temp[2 * i] := 0.0;
        temp[2 * i + 1] := 0.0;
        i := i + 1;
      }
      PackFromBins(temp[..], col);
    }

    /** Both parts of every bin of `temp` multiplied by the kernel. */
    method ScaleBins()
      requires Valid()
      modifies temp
      ensures temp[..] == Scale(old(temp[..]), G[..])
    {
      ghost var s0 := temp[..];
      ghost var g := G[..];
      for i := 0 to 2 * rows
        invariant forall b :: 0 <= b < i ==> temp[2 * b] == s0[2 * b] * g[b] && temp[2 * b + 1] == s0[2 * b + 1] * g[b]
        invariant forall t :: 2 * i <= t < 4 * rows ==> temp[t] == s0[t]
      {
        var w := G[i];
        assert w == g[i];
        temp[2 * i] := temp[2 * i] * w;
        temp[2 * i + 1] := temp[2 * i + 1] * w;
      }
      ScaleFromBins(temp[..], s0, g);
    }

    /** The last loop of a column's filtering: the real parts of the first `rows` bins
        back into column `j`. */
    method UnpackColumn(j: nat)
      requires Valid() && j < cols
      modifies pd
      ensures forall r :: 0 <= r < rows ==> pd[r, j] == Unpack(temp[..], rows)[r]
      ensures forall r, c :: 0 <= r < rows && 0 <= c < cols && c != j ==> pd[r, c] == old(pd[r, c])
    {
      for i := 0 to rows
        invariant forall r :: 0 <= r < i ==> pd[r, j] == temp[2 * r]
        invariant forall r, c :: 0 <= r < rows && 0 <= c < cols && c != j ==> pd[r, c] == old(pd[r, c])
      {
        pd[i, j] := temp[2 * i];
      }
    }

    /** Cosine weighting, then every column filtered through the kernel. */
    method Filter() returns (status: int)
      requires Valid()
      modifies pd, temp
      ensures status == 0
      ensures Snapshot(pd) == FilterGrid(lib.fft, old(Snapshot(pd)), cosTheta, G[..], rows, cols)
    {
      ghost var p0 := Snapshot(pd);
      ghost var pw := Weighted(p0, cosTheta, rows, cols);
      for i := 0 to rows
        invariant forall r, c :: 0 <= r < i && 0 <= c < cols ==> pd[r, c] == pw[r][c]
        invariant forall r, c :: i <= r < rows && 0 <= c < cols ==> pd[r, c] == p0[r][c]
      {
        WeightRow(i);
      }
      ghost var q := FilterGrid(lib.fft, p0, cosTheta, G[..], rows, cols);
      for j := 0 to cols
        invariant forall r, c :: 0 <= r < rows && 0 <= c < j ==> pd[r, c] == q[r][c]
        invariant forall r, c :: 0 <= r < rows && j <= c < cols ==> pd[r, c] == pw[r][c]
      {
        assert Column(Snapshot(pd), j) == Column(pw, j);
        FilterColumnAt(j);
      }
      GridExt(Snapshot(pd), q, rows, cols);
      return 0;
    }

    /** The cosine weighting of row `i`. */
    method WeightRow(i: nat)
      requires Valid() && i < rows
      modifies pd
      ensures forall c :: 0 <= c < cols ==> pd[i, c] == old(pd[i, c]) * cosTheta[i][c]
      ensures forall r, c :: 0 <= r < rows && r != i && 0 <= c < cols ==> pd[r, c] == old(pd[r, c])
    {
      for j := 0 to cols
        invariant forall c :: 0 <= c < j ==> pd[i, c] == old(pd[i, c]) * cosTheta[i][c]
        invariant forall c :: j <= c < cols ==> pd[i, c] == old(pd[i, c])
        invariant forall r, c :: 0 <= r < rows && r != i && 0 <= c < cols ==> pd[r, c] == old(pd[r, c])
      {
        pd[i, j] := pd[i, j] * cosTheta[i][j];
      }
    }

    /** Interpolates column `j` of `pd` over the runs marked in that column of `mask`. */
    method InterpolateColumnAt(mask: array2<int>, j: nat)
      requires Valid() && j < cols
      requires mask.Length0 == rows && mask.Length1 == cols
      requires Admissible(Column(Marks(mask), j))
      modifies pd
      ensures Column(Snapshot(pd), j) == Fill(old(Column(Snapshot(pd), j)), Column(Marks(mask), j))
      ensures forall r, c :: 0 <= r < rows && 0 <= c < cols && c != j ==> pd[r, c] == old(pd[r, c])
    {
      ghost var marks := Column(Marks(mask), j);
      ghost var col0 := Column(Snapshot(pd), j);
      var i := 0;
      while i < rows
        invariant 0 <= i <= rows
        invariant Scan(Column(Snapshot(pd), j), marks, i) == Fill(col0, marks)
        invariant forall r, c :: 0 <= r < rows && 0 <= c < cols && c != j ==> pd[r, c] == old(pd[r, c])
        decreases rows - i
      {
        ghost var col := Column(Snapshot(pd), j);
        var next := InterpolateFrom(mask, j, i, marks);
        ScanStepKeeps(col, marks, i, Column(Snapshot(pd), j), next);
        i := next;
      }
    }

    /** One step of the scan of column `j` from row `i`: an unmasked row is passed over;
        a masked row starts a run that is filled, and the scan resumes two rows past its
        end. Returns the row the scan resumes at. */
    method InterpolateFrom(mask: array2<int>, j: nat, i: nat, ghost marks: seq<bool>) returns (next: nat)
      requires Valid() && j < cols && i < rows
      requires mask.Length0 == rows && mask.Length1 == cols
      requires marks == Column(Marks(mask), j) && Admissible(marks)
      modifies pd
      ensures ScanStep(old(Column(Snapshot(pd), j)), marks, i, Column(Snapshot(pd), j), next)
      ensures forall r, c :: 0 <= r < rows && 0 <= c < cols && c != j ==> pd[r, c] == old(pd[r, c])
    {
      if mask[i, j] != 0 {
        assert marks[i];
        next := InterpolateRun(mask, j, i, marks);
      } else {
        assert !marks[i];
        next := i + 1;
      }
    }

    /** The scan of column `j` at the masked row `i`: the run starting there is filled
        and the scan resumes two rows past its end. */
    method InterpolateRun(mask: array2<int>, j: nat, i: nat, ghost marks: seq<bool>) returns (next: nat)
      requires Valid() && j < cols && i < rows
      requires mask.Length0 == rows && mask.Length1 == cols
      requires marks == Column(Marks(mask), j) && Admissible(marks) && marks[i]
      modifies pd
      ensures next == RunEnd(marks, i) + 2
      ensures Column(Snapshot(pd), j) == FillRun(old(Column(Snapshot(pd), j)), i, RunEnd(marks, i))
      ensures forall r, c :: 0 <= r < rows && 0 <= c < cols && c != j ==> pd[r, c] == old(pd[r, c])
    {
      ghost var col := Column(Snapshot(pd), j);
      var end := RunEndAt(mask, j, i, marks);
      FillRunAt(j, i, end, col);
      next := end + 2;
    }

    /** The scan over the masked rows of column `j` from row `i`: the last row of the run. */
    method RunEndAt(mask: array2<int>, j: nat, i: nat, ghost marks: seq<bool>) returns (end: nat)
      requires mask.Length0 == rows && mask.Length1 == cols && j < cols && i < rows
      requires marks == Column(Marks(mask), j) && Admissible(marks) && marks[i]
      ensures end == RunEnd(marks, i)
    {
      var k := i;
      while mask[k, j] != 0
        invariant i <= k < rows
        invariant k == i || (marks[k - 1] && RunEnd(marks, i) == RunEnd(marks, k - 1))
        decreases rows - k
      {
        assert marks[k];
        k := k + 1;
      }
      end := k - 1;
    }

    /** The masked rows `a..end` of column `j`, and row `a - 1` above them, on the line
        from row `a - 2` to row `end + 1`. */
    method FillRunAt(j: nat, a: nat, end: nat, ghost cur: seq<real>)
      requires Valid() && j < cols && 2 <= a <= end && end + 1 < rows
      requires cur == Column(Snapshot(pd), j)
      modifies pd
      ensures Column(Snapshot(pd), j) == FillRun(cur, a, end)
      ensures forall r, c :: 0 <= r < rows && 0 <= c < cols && c != j ==> pd[r, c] == old(pd[r, c])
    {
      var start := a - 1;
      ghost var filled := FillRun(cur, a, end);
      var delta := (pd[end + 1, j] - pd[start - 1, j]) / (end - start + 2) as real;
      for n := start to end + 1
        invariant forall r :: start <= r < n ==> pd[r, j] == filled[r]
        invariant forall r :: 0 <= r < rows && !(start <= r < n) ==> pd[r, j] == old(pd[r, j])
        invariant forall r, c :: 0 <= r < rows && 0 <= c < cols && c != j ==> pd[r, c] == old(pd[r, c])
      {
        pd[n, j] := pd[start - 1, j] + (n - start + 1) as real * delta;
      }
      assert Column(Snapshot(pd), j) == filled;
    }

    /** Replaces every run of masked rows, column by column, by a straight line; the
        mask may mark rows 2..rows-2 only, since the line is anchored one row beyond each
        end of the run and the run scan has no row bound. */
    method Interpolate(mask: array2<int>) returns (status: int)
      requires Valid()
      requires mask.Length0 == rows && mask.Length1 == cols
      requires forall i, j :: 0 <= i < rows && 0 <= j < cols && mask[i, j] != 0 ==> 2 <= i <= rows - 2
      modifies pd
      ensures status == 0
      ensures GridAdmissible(Marks(mask), rows, cols)
      ensures Snapshot(pd) == FillGrid(old(Snapshot(pd)), Marks(mask), rows, cols)
    {
      ghost var p0 := Snapshot(pd);
      ghost var marks := Marks(mask);
      ghost var q := FillGrid(p0, marks, rows, cols);
      for j := 0 to cols
        invariant forall r, c :: 0 <= r < rows && 0 <= c < j ==> pd[r, c] == q[r][c]
        invariant forall r, c :: 0 <= r < rows && j <= c < cols ==> pd[r, c] == p0[r][c]
      {
        assert Column(Snapshot(pd), j) == Column(p0, j);
        ColumnAdmissible(marks, rows, cols, j);
        InterpolateColumnAt(mask, j);
      }
      GridExt(Snapshot(pd), q, rows, cols);
      return 0;
    }

    /** `pd -= ratio * pd2`, entry by entry; `pd2` may be `pd` itself. */
    method Subtract(pd2: array2<real>, ratio: real)
      requires Valid() && pd2.Length0 == rows && pd2.Length1 == cols
      modifies pd
      ensures Snapshot(pd) == Difference(old(Snapshot(pd)), old(Snapshot(pd2)), ratio, rows, cols)
    {
      ghost var p0 := Snapshot(pd);
      ghost var q0 := Snapshot(pd2);
      ghost var d := Difference(p0, q0, ratio, rows, cols);
      for i := 0 to rows
        invariant forall r, c :: 0 <= r < i && 0 <= c < cols ==> pd[r, c] == d[r][c]
        invariant forall r, c :: i <= r < rows && 0 <= c < cols ==> pd[r, c] == p0[r][c] && pd2[r, c] == q0[r][c]
      {
        SubtractRow(pd2, ratio, i);
      }
      GridExt(Snapshot(pd), d, rows, cols);
    }

    /** Row `i` of `Subtract`. */
    method SubtractRow(pd2: array2<real>, ratio: real, i: nat)
      requires Valid() && pd2.Length0 == rows && pd2.Length1 == cols && i < rows
      modifies pd
      ensures forall c :: 0 <= c < cols ==> pd[i, c] == old(pd[i, c]) - ratio * old(pd2[i, c])
      ensures forall r, c :: 0 <= r < rows && r != i && 0 <= c < cols ==>
        pd[r, c] == old(pd[r, c]) && pd2[r, c] == old(pd2[r, c])
    {
      for j := 0 to cols
        invariant forall c :: 0 <= c < j ==> pd[i, c] == old(pd[i, c]) - ratio * old(pd2[i, c])
        invariant forall c :: j <= c < cols ==> pd[i, c] == old(pd[i, c]) && pd2[i, c] == old(pd2[i, c])
        invariant forall r, c :: 0 <= r < rows && r != i && 0 <= c < cols ==>
          pd[r, c] == old(pd[r, c]) && pd2[r, c] == old(pd2[r, c])
      {
        pd[i, j] := pd[i, j] - ratio * pd2[i, j];
      }
    }
  }
}
