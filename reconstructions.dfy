/** The `Reconstruction` object: a slices-by-rows-by-cols volume on a centred voxel grid,
    filled by backprojecting the filtered projections of a `Projection`, optionally a
    second time with the projections of metal voxels interpolated away. */
module Reconstructions {
  import opened CMath
  import opened Grids
  import opened Geometry
  import opened FrameSource
  import opened ColumnFilter
  import opened GapFill
  import opened Numerics
  import opened Projections
  import opened Metal

  /** A window message posted to the application: progress after a projection (the
      16-bit low and high words of its parameter), or the end of a reconstruction. */
  datatype Event = Progress(done: nat, total: nat) | Completed

  /** Which reconstruction a backprojection loop performs: the plain one, or the
      metal-artefact pass over a previous volume with its threshold. */
  datatype Pass = Plain | Metal(previous: Volume, level: real)

  /** The projection counter a pass reports after `m` projections: the plain pass
      counts in an unsigned 16-bit word, the metal pass never advances its counter. */
  function Counter(pass: Pass, m: nat): (n: nat)
    ensures n < 0x1_0000
    ensures pass.Metal? ==> n == 0
    ensures pass.Plain? && m < 0x1_0000 ==> n == m
  {
    if pass.Plain? then Word(m) else 0
  }

  /** The progress messages after `n` projections of a scan of `total`, one per
      projection. */
  function Reports(pass: Pass, n: nat, total: int): (r: seq<Event>)
    ensures |r| == n
  {
    if n == 0 then [] else Reports(pass, n - 1, total) + [Progress(Counter(pass, n), Word(total))]
  }

  /** The `t`-th message reports the counter after `t + 1` projections; the total is
      the 16-bit word of the projection count. */
  lemma {:induction false} ReportsCount(pass: Pass, n: nat, total: int)
    ensures forall t :: 0 <= t < n ==> Reports(pass, n, total)[t] == Progress(Counter(pass, t + 1), Word(total))
  {
    if n > 0 {
      ReportsCount(pass, n - 1, total);
    }
  }

  lemma ReportsStep(base: seq<Event>, pass: Pass, n: nat, total: int)
    ensures base + Reports(pass, n + 1, total) == base + Reports(pass, n, total) + [Progress(Counter(pass, n + 1), Word(total))]
  {
  }

  /** Taking the head of the pending projections keeps the files done and the files
      pending together equal to the scan. */
  lemma PendingStep(done: seq<nat>, frames: seq<Frame>, before: int, f: nat, start: int)
    requires IsCursor(frames, before) && IsCursor(frames, f) && IsCursor(frames, start)
    requires done + Pending(frames, before) == Pending(frames, start)
    requires Pending(frames, before) == [f] + Pending(frames, f)
    ensures (done + [f]) + Pending(frames, f) == Pending(frames, start)
  {
    assert (done + [f]) + Pending(frames, f) == done + ([f] + Pending(frames, f));
  }

  /** The coordinates of the `n` cells of a voxel axis with spacing `res`, centred on zero. */
  function Axis(n: nat, res: real): (a: seq<real>)
    ensures |a| == n && forall i :: 0 <= i < n ==> a[i] == GridCoord(n, res, i)
  {
    seq(n, i => GridCoord(n, res, i))
  }

  /** The constructor's loop over one axis. */
  method BuildAxis(n: nat, res: real) returns (a: seq<real>)
    ensures a == Axis(n, res)
  {
    a := [];
    for i := 0 to n
      invariant a == Axis(n, res)[..i]
    {
      a := a + [GridCoord(n, res, i)];
    }
  }

  /** A new volume of zeros. */
  method ZeroVolume(slices: nat, rows: nat, cols: nat) returns (v: array3<real>)
    ensures fresh(v) && v.Length0 == slices && v.Length1 == rows && v.Length2 == cols
    ensures forall i, j, k :: 0 <= i < slices && 0 <= j < rows && 0 <= k < cols ==> v[i, j, k] == 0.0
  {
    v := new real[slices, rows, cols];
    ClearVolume(v);
  }

  /** Every voxel of `v` set to zero. */
  method ClearVolume(v: array3<real>)
    modifies v
    ensures forall i, j, k :: 0 <= i < v.Length0 && 0 <= j < v.Length1 && 0 <= k < v.Length2 ==> v[i, j, k] == 0.0
  {
    for i := 0 to v.Length0
      invariant forall i', j, k :: 0 <= i' < i && 0 <= j < v.Length1 && 0 <= k < v.Length2 ==> v[i', j, k] == 0.0
    {
      for j := 0 to v.Length1
        invariant forall i', j', k :: 0 <= i' < i && 0 <= j' < v.Length1 && 0 <= k < v.Length2 ==> v[i', j', k] == 0.0
        invariant forall j', k :: 0 <= j' < j && 0 <= k < v.Length2 ==> v[i, j', k] == 0.0
      {
        for k := 0 to v.Length2
          invariant forall i', j', k' :: 0 <= i' < i && 0 <= j' < v.Length1 && 0 <= k' < v.Length2 ==> v[i', j', k'] == 0.0
          invariant forall j', k' :: 0 <= j' < j && 0 <= k' < v.Length2 ==> v[i, j', k'] == 0.0
          invariant forall k' :: 0 <= k' < k ==> v[i, j, k'] == 0.0
        {
          v[i, j, k] := 0.0;
        }
      }
    }
  }

  /** The voxels of `v` as a value. */
  ghost function Contents(v: array3<real>): (w: Volume)
    reads v
    ensures IsVolume(w, v.Length0, v.Length1, v.Length2)
    ensures forall i, j, k :: 0 <= i < v.Length0 && 0 <= j < v.Length1 && 0 <= k < v.Length2 ==> w[i][j][k] == v[i, j, k]
  {
    seq(v.Length0, i requires 0 <= i < v.Length0 reads v =>
      seq(v.Length1, j requires 0 <= j < v.Length1 reads v =>
        seq(v.Length2, k requires 0 <= k < v.Length2 reads v => v[i, j, k])))
  }

  /** Every cell of the metal mask cleared. */
  method ClearMask(mask: array2<int>)
    modifies mask
    ensures forall r, c :: 0 <= r < mask.Length0 && 0 <= c < mask.Length1 ==> mask[r, c] == 0
  {
    for r := 0 to mask.Length0
      invariant forall r', c :: 0 <= r' < r && 0 <= c < mask.Length1 ==> mask[r', c] == 0
    {
      for c := 0 to mask.Length1
        invariant forall r', c' :: 0 <= r' < r && 0 <= c' < mask.Length1 ==> mask[r', c'] == 0
        invariant forall c' :: 0 <= c' < c ==> mask[r, c'] == 0
      {
        mask[r, c] := 0;
      }
    }
  }

  class Reconstruction {
    const proj: Projection
    /** The volume, indexed slice, row, column. */
    var recon: array3<real>
    /** The copy of the middle slice shown while a reconstruction runs. */
    const displaySlice: array2<real>

    const res: real
    const slices: nat
    const rows: nat
    const cols: nat

    /** Voxel coordinates along the column, row and slice axes. */
    const x: seq<real>
    const y: seq<real>
    const z: seq<real>

    var threshold: real
    var cancel: bool
    /** The messages posted to the application window, oldest first. */
    var posted: seq<Event>

    /** The voxel axes as the constructor builds them. */
    ghost predicate Axes() {
      x == Axis(cols, res) && y == Axis(rows, res) && z == Axis(slices, res)
    }

    ghost predicate Valid()
      reads this
    {
      recon.Length0 == slices && recon.Length1 == rows && recon.Length2 == cols &&
      displaySlice.Length0 == rows && displaySlice.Length1 == cols &&
      displaySlice != proj.pd && Axes()
    }

    /** Every voxel column can be projected in view `v`. */
    ghost predicate RaysDefined(v: View)
      requires Axes()
    {
      forall j, k :: 0 <= j < rows && 0 <= k < cols ==> RayDefined(proj.DetectorGeometry(), x[k], y[j], v)
    }

    /** An empty volume on the grid `res * (i - (n - 1) / 2)` along each axis, metal
        threshold 10 and no cancel request. */
    constructor (newSlices: nat, newRows: nat, newCols: nat, newRes: real, newProj: Projection)
      ensures Valid() && fresh(recon) && fresh(displaySlice)
      ensures proj == newProj && res == newRes
      ensures slices == newSlices && rows == newRows && cols == newCols
      ensures forall i, j, k :: 0 <= i < slices && 0 <= j < rows && 0 <= k < cols ==> recon[i, j, k] == 0.0
      ensures threshold == 10.0 && !cancel && posted == []
    {
      slices := newSlices;
      rows := newRows;
      cols := newCols;
      res := newRes;
      proj := newProj;
      cancel := false;
      threshold := 10.0;
      posted := [];
      var v := ZeroVolume(newSlices, newRows, newCols);
      recon := v;
      displaySlice := new real[newRows, newCols];
      var zs := BuildAxis(newSlices, newRes);
      z := zs;
      var ys := BuildAxis(newRows, newRes);
      y := ys;
      var xs := BuildAxis(newCols, newRes);
      x := xs;
    }

    /** The view of a projection taken at `angle` degrees: cosine and sine of the angle
        plus 90 degrees, and the calibration offsets for the angle. */
    function ViewOf(angle: real): View
      requires proj.Shaped() && OffsetIndex(angle) >= 0
    {
      var t := Pi * (angle + 90.0) / 180.0;
      View(proj.lib.cos(t), proj.lib.sin(t), proj.yOffsets[OffsetIndex(angle)], proj.zOffsets[OffsetIndex(angle)])
    }

    /** Every projection file has a calibration slot and a view in which every voxel
        column can be projected. */
    ghost predicate FramesUsable()
      requires Axes() && proj.Shaped()
    {
      forall f :: 0 <= f < |proj.frames| && !IsBlankScan(proj.frames[f]) ==>
        OffsetIndex(proj.frames[f].angle) >= 0 && RaysDefined(ViewOf(proj.frames[f].angle))
    }

    /** Indices of projection files. */
    ghost predicate Projections(fs: seq<nat>)
      requires proj.Shaped()
    {
      forall t :: 0 <= t < |fs| ==> fs[t] < |proj.frames| && !IsBlankScan(proj.frames[fs[t]])
    }

    /** What the marking of projection `f` sees in the metal pass. */
    ghost function SceneOf(pass: Pass, f: nat): (s: Scene)
      requires Axes() && proj.Shaped() && FramesUsable() && pass.Metal?
      requires f < |proj.frames| && !IsBlankScan(proj.frames[f])
    {
      Scene(proj.DetectorGeometry(), ViewOf(proj.frames[f].angle), x, y, z, pass.previous, pass.level)
    }

    /** The metal pass needs a volume of the grid's shape, and every metal voxel must
        land on detector rows 2..rows-3 in every view, where the gap filler can anchor
        its lines. */
    ghost predicate PassUsable(pass: Pass)
      requires Axes() && proj.Shaped() && FramesUsable()
    {
      pass.Metal? ==> (
        IsVolume(pass.previous, slices, rows, cols) &&
        forall f :: 0 <= f < |proj.frames| && !IsBlankScan(proj.frames[f]) ==>
          WellFormed(SceneOf(pass, f)) && RowsInside(SceneOf(pass, f)))
    }

    /** The projection of file `f` as a pass backprojects it: normalised, in the metal
        pass with the metal-marked cells interpolated away, then filtered with kernel `g`. */
    ghost function Sinogram(pass: Pass, f: nat, g: seq<real>): (q: Grid<real>)
      requires Axes() && proj.Shaped() && FramesUsable() && PassUsable(pass)
      requires f < |proj.frames| && !IsBlankScan(proj.frames[f]) && |g| == 2 * proj.rows
      ensures IsGrid(q, proj.rows, proj.cols)
    {
      match pass
      case Plain =>
        FilterGrid(proj.lib.fft, proj.Normalized(f), proj.cosTheta, g, proj.rows, proj.cols)
      case Metal(_, _) =>
        var s := SceneOf(pass, f);
        MaskAdmissible(s);
        FilterGrid(proj.lib.fft, FillGrid(proj.Normalized(f), Mask(s), proj.rows, proj.cols), proj.cosTheta, g, proj.rows, proj.cols)
    }

    /** Voxel (i, j, k) after a pass backprojects the files `fs`, in order, into zeros. */
    ghost function Accumulated(pass: Pass, fs: seq<nat>, g: seq<real>, i: nat, j: nat, k: nat): real
      requires Axes() && proj.Shaped() && FramesUsable() && PassUsable(pass) && Projections(fs) && |g| == 2 * proj.rows
      requires i < slices && j < rows && k < cols
      decreases |fs|
    {
      if |fs| == 0 then 0.0
      else
        var f := fs[|fs| - 1];
        Accumulated(pass, fs[..|fs| - 1], g, i, j, k) +
        Contribution(proj.DetectorGeometry(), ViewOf(proj.frames[f].angle), Sinogram(pass, f, g), x[k], y[j], z[i])
    }

    /** Backprojecting one more file adds its contribution to every voxel. */
    lemma AccumulatedStep(pass: Pass, fs: seq<nat>, f: nat, g: seq<real>)
      requires Axes() && proj.Shaped() && FramesUsable() && PassUsable(pass) && |g| == 2 * proj.rows
      requires Projections(fs) && f < |proj.frames| && !IsBlankScan(proj.frames[f])
      ensures Projections(fs + [f])
      ensures forall i, j, k :: 0 <= i < slices && 0 <= j < rows && 0 <= k < cols ==>
        Accumulated(pass, fs + [f], g, i, j, k) == Accumulated(pass, fs, g, i, j, k) +
          Contribution(proj.DetectorGeometry(), ViewOf(proj.frames[f].angle), Sinogram(pass, f, g), x[k], y[j], z[i])
    {
      assert (fs + [f])[..|fs|] == fs;
    }

    /** With no voxel of the previous volume above the threshold the metal pass marks
        nothing and backprojects each projection exactly as the plain pass does. */
    lemma MetalFreeSinogram(pass: Pass, f: nat, g: seq<real>)
      requires Axes() && proj.Shaped() && FramesUsable() && PassUsable(pass) && pass.Metal? && |g| == 2 * proj.rows
      requires f < |proj.frames| && !IsBlankScan(proj.frames[f])
      requires forall i, j, k :: 0 <= i < slices && 0 <= j < rows && 0 <= k < cols ==> pass.previous[i][j][k] <= pass.level
      ensures Sinogram(pass, f, g) == Sinogram(Plain, f, g)
    {
      var s := SceneOf(pass, f);
      forall r, c | 0 <= r < proj.rows && 0 <= c < proj.cols ensures !Mask(s)[r][c] {
        NoMetalNoMask(s, r, c);
      }
      FillGridUnmarked(proj.Normalized(f), Mask(s), proj.rows, proj.cols);
    }

    /** Without metal the metal pass reconstructs the same volume as the plain pass. */
    lemma {:induction false} MetalFreeAccumulated(pass: Pass, fs: seq<nat>, g: seq<real>, i: nat, j: nat, k: nat)
      requires Axes() && proj.Shaped() && FramesUsable() && PassUsable(pass) && pass.Metal? && Projections(fs)
      requires |g| == 2 * proj.rows && i < slices && j < rows && k < cols
      requires forall i, j, k :: 0 <= i < slices && 0 <= j < rows && 0 <= k < cols ==> pass.previous[i][j][k] <= pass.level
      ensures Accumulated(pass, fs, g, i, j, k) == Accumulated(Plain, fs, g, i, j, k)
      decreases |fs|
    {
      if |fs| > 0 {
        MetalFreeAccumulated(pass, fs[..|fs| - 1], g, i, j, k);
        MetalFreeSinogram(pass, fs[|fs| - 1], g);
      }
    }

    /** The volume holds what the pass backprojects from the files `fs`. */
    ghost predicate Holds(vol: array3<real>, pass: Pass, fs: seq<nat>, g: seq<real>)
      reads vol
      requires Axes() && proj.Shaped() && FramesUsable() && PassUsable(pass) && Projections(fs) && |g| == 2 * proj.rows
      requires vol.Length0 == slices && vol.Length1 == rows && vol.Length2 == cols
    {
      forall i, j, k :: 0 <= i < slices && 0 <= j < rows && 0 <= k < cols ==>
        vol[i, j, k] == Accumulated(pass, fs, g, i, j, k)
    }

    /** Every voxel outside the first voxel column (j = k = 0) is zero: what is left of
        the volume when a cancel request stops the first projection. */
    ghost predicate ZeroBeyondFirstColumn(vol: array3<real>)
      reads vol
      requires vol.Length0 == slices && vol.Length1 == rows && vol.Length2 == cols
    {
      forall i, j, k :: 0 <= i < slices && 0 <= j < rows && 0 <= k < cols && (j != 0 || k != 0) ==> vol[i, j, k] == 0.0
    }

    /** A cancel request stops a pass: the check after each voxel column runs only when
        the grid has a voxel column. */
    predicate StopsEarly()
      reads this
    {
      cancel && rows > 0 && cols > 0
    }

    /** What a cancel request leaves of a pass whose first projection is `f`: voxel
        column (0, 0) holds that projection's contribution and every other voxel is
        zero. */
    ghost predicate Cancelled(vol: array3<real>, pass: Pass, f: nat, g: seq<real>)
      reads vol
      requires Axes() && proj.Shaped() && FramesUsable() && PassUsable(pass) && |g| == 2 * proj.rows
      requires f < |proj.frames| && !IsBlankScan(proj.frames[f])
      requires vol.Length0 == slices && vol.Length1 == rows && vol.Length2 == cols
    {
      ZeroBeyondFirstColumn(vol) &&
      forall i :: 0 <= i < slices && rows > 0 && cols > 0 ==>
        vol[i, 0, 0] == Contribution(proj.DetectorGeometry(), ViewOf(proj.frames[f].angle), Sinogram(pass, f, g), x[0], y[0], z[i])
    }

    /** The display buffer holds the middle slice of `vol`. */
    ghost predicate ShowsMiddle(vol: array3<real>)
      reads vol, displaySlice
      requires slices > 0 && vol.Length0 == slices && vol.Length1 == rows && vol.Length2 == cols
      requires displaySlice.Length0 == rows && displaySlice.Length1 == cols
    {
      forall j, k :: 0 <= j < rows && 0 <= k < cols ==> displaySlice[j, k] == vol[slices / 2, j, k]
    }

    /** The cursor after the first, discarded, read from `cursor`. */
    function AfterDiscard(cursor: int): (c: int)
      requires IsCursor(proj.frames, cursor)
      ensures IsCursor(proj.frames, c)
    {
      match NextProjection(proj.frames, cursor)
      case None => -1
      case Some(f) => f
    }

    /** Zeroes the volume, discards the first projection, then backprojects every further
        projection, filtered, into it, showing the middle slice and posting progress
        after each; posts completion at the end. A cancel request stops it after the
        first voxel column of the first projection, with the enumeration closed and
        nothing posted; with no projection pending it still posts completion. */
    method Backproject()
      requires Valid() && proj.Valid() && slices > 0 && FramesUsable()
      modifies this, recon, displaySlice, proj, proj.pd, proj.temp
      ensures Valid() && proj.Valid() && recon == old(recon) && proj.ff == -1
      ensures threshold == old(threshold) && cancel == old(cancel)
      ensures var fs := Pending(proj.frames, AfterDiscard(old(proj.ff)));
        Projections(fs) &&
        if StopsEarly() && fs != [] then
          posted == old(posted) && unchanged(displaySlice) && Cancelled(recon, Plain, fs[0], proj.G[..])
        else
          Holds(recon, Plain, fs, proj.G[..]) && (fs != [] ==> ShowsMiddle(recon)) && (fs == [] ==> unchanged(displaySlice)) &&
          posted == old(posted) + Reports(Plain, |fs|, proj.numProj) + [Completed]
    {
      ClearVolume(recon);
      DiscardFirst();
      ghost var start := proj.ff;
      var stopped := BackprojectPending(old(posted), start, proj.G[..]);
      if stopped {
        return;
      }
      posted := posted + [Completed];
    }

    /** The first read of either loop, whose projection is not backprojected. */
    method DiscardFirst()
      requires proj.Valid()
      modifies proj, proj.pd
      ensures proj.Valid() && proj.ff == AfterDiscard(old(proj.ff))
    {
      var discarded := proj.LoadNextProj();
    }

    /** The backprojector's loop over the projections pending after `start`, from a
        zero volume. Reports whether a cancel request stopped it. */
    method BackprojectPending(ghost base: seq<Event>, ghost start: int, ghost g: seq<real>) returns (stopped: bool)
      requires Valid() && proj.Valid() && proj.ff == start && proj.G[..] == g && slices > 0 && FramesUsable()
      requires posted == base && forall i, j, k :: 0 <= i < slices && 0 <= j < rows && 0 <= k < cols ==> recon[i, j, k] == 0.0
      modifies this, recon, displaySlice, proj, proj.pd, proj.temp
      ensures Valid() && proj.Valid() && recon == old(recon) && proj.ff == -1
      ensures threshold == old(threshold) && cancel == old(cancel) && proj.G[..] == g
      ensures var fs := Pending(proj.frames, start);
        Projections(fs) && stopped == (StopsEarly() && fs != []) &&
        if stopped then
          posted == base && unchanged(displaySlice) && Cancelled(recon, Plain, fs[0], g)
        else
          Holds(recon, Plain, fs, g) && (fs != [] ==> ShowsMiddle(recon)) && (fs == [] ==> unchanged(displaySlice)) &&
          posted == base + Reports(Plain, |fs|, proj.numProj)
    {
      ghost var done: seq<nat> := [];
      ghost var cursor := start;
      var n := 0;
      while true
        invariant recon == old(recon) && threshold == old(threshold) && cancel == old(cancel)
        invariant Running(Plain, base, start, g, done, n, cursor) && proj.Valid() && proj.ff == cursor
        invariant done == [] ==> unchanged(displaySlice)
        decreases |proj.frames| - cursor
      {
        var loaded;
        loaded, stopped, n, done, cursor := BackprojectStep(base, start, g, done, n, cursor);
        if !loaded {
          break;
        }
        if stopped {
          return;
        }
      }
      assert done + [] == done;
    }

    /** The state between two rounds of the backprojector's loop: the projections `done`
        so far and those pending make up the scan read from `start`, the volume holds
        their backprojection, `n` counts them in 16 bits, a progress message has been
        posted for each, and the display shows the middle slice once one is done. */
    ghost predicate Running(pass: Pass, base: seq<Event>, start: int, g: seq<real>, done: seq<nat>, n: int, cursor: int)
      reads this, proj.G, recon, displaySlice
    {
      Valid() && proj.Shaped() && slices > 0 && FramesUsable() && PassUsable(pass) && IsCursor(proj.frames, start) &&
      IsCursor(proj.frames, cursor) &&
      proj.G[..] == g && Projections(done) && done + Pending(proj.frames, cursor) == Pending(proj.frames, start) &&
      (StopsEarly() ==> done == []) && n == Counter(pass, |done|) &&
      posted == base + Reports(pass, |done|, proj.numProj) && Holds(recon, pass, done, g) &&
      (done != [] ==> ShowsMiddle(recon))
    }

    /** One round of the backprojector's loop: load the next projection and, if there
        is one, filter it, backproject it, show the middle slice and post progress.
        Reports whether a projection was loaded and whether a cancel request stopped
        the round. */
    method BackprojectStep(ghost base: seq<Event>, ghost start: int, ghost g: seq<real>, ghost done: seq<nat>, n: int,
                           ghost cursor: int)
      returns (loaded: bool, stopped: bool, next: int, ghost done': seq<nat>, ghost cursor': int)
      requires Running(Plain, base, start, g, done, n, cursor) && proj.Valid() && proj.ff == cursor
      modifies this, recon, displaySlice, proj, proj.pd, proj.temp
      ensures recon == old(recon) && threshold == old(threshold) && cancel == old(cancel) && proj.Valid()
      ensures !stopped ==> Running(Plain, base, start, g, done', next, cursor')
      ensures loaded && !stopped ==> proj.ff == cursor' > cursor
      ensures loaded ==> done' == done + [cursor']
      ensures !loaded ==> !stopped && proj.ff == -1 && done' == done && Pending(proj.frames, cursor) == [] && unchanged(displaySlice)
      ensures stopped ==> Valid() && proj.Valid() && proj.ff == -1 && StopsEarly() && done == [] && posted == old(posted)
      ensures stopped ==> unchanged(displaySlice)
      ensures stopped ==> Pending(proj.frames, start) != [] && Cancelled(recon, Plain, Pending(proj.frames, start)[0], g)
    {
      loaded := LoadPending(Plain, base, start, g, done, n, cursor);
      if !loaded {
        return false, false, n, done, cursor;
      }
      cursor' := proj.ff;
      done' := done + [cursor'];
      stopped, next := BackprojectAdvance(base, start, g, done, n, cursor);
    }

    /** The read at the head of a round of either loop: the next projection file after
        the cursor, with the state between rounds kept. */
    method LoadPending(ghost pass: Pass, ghost base: seq<Event>, ghost start: int, ghost g: seq<real>, ghost done: seq<nat>,
                       n: int, ghost cursor: int)
      returns (loaded: bool)
      requires Running(pass, base, start, g, done, n, cursor) && proj.Valid() && proj.ff == cursor
      modifies proj, proj.pd
      ensures Running(pass, base, start, g, done, n, cursor) && proj.Valid()
      ensures !loaded ==> proj.ff == -1 && Pending(proj.frames, cursor) == []
      ensures loaded ==> (cursor < proj.ff < |proj.frames| && !IsBlankScan(proj.frames[proj.ff]) &&
        Pending(proj.frames, cursor) == [proj.ff] + Pending(proj.frames, proj.ff) &&
        Snapshot(proj.pd) == proj.Normalized(proj.ff) && proj.projAngle == proj.frames[proj.ff].angle)
    {
      var status := proj.LoadNextProj();
      NextIsPendingHead(proj.frames, cursor);
      loaded := status != 0;
    }

    /** The rest of a round once a projection is loaded: filter it, backproject it,
        show the middle slice and post progress, or close the enumeration when a cancel
        request stops the backprojection. */
    method BackprojectAdvance(ghost base: seq<Event>, ghost start: int, ghost g: seq<real>, ghost done: seq<nat>, n: int,
                              ghost cursor: int)
      returns (stopped: bool, next: int)
      requires Running(Plain, base, start, g, done, n, cursor) && proj.Valid()
      requires cursor < proj.ff < |proj.frames| && !IsBlankScan(proj.frames[proj.ff])
      requires Pending(proj.frames, cursor) == [proj.ff] + Pending(proj.frames, proj.ff)
      requires Snapshot(proj.pd) == proj.Normalized(proj.ff) && proj.projAngle == proj.frames[proj.ff].angle
      modifies this, recon, displaySlice, proj, proj.pd, proj.temp
      ensures recon == old(recon) && threshold == old(threshold) && cancel == old(cancel) && proj.Valid()
      ensures !stopped ==> Running(Plain, base, start, g, done + [old(proj.ff)], next, old(proj.ff)) && proj.ff == old(proj.ff)
      ensures stopped ==> Valid() && proj.Valid() && proj.ff == -1 && StopsEarly() && done == [] && posted == old(posted)
      ensures stopped ==> unchanged(displaySlice)
      ensures stopped ==> Cancelled(recon, Plain, old(proj.ff), g)
    {
      ghost var f: nat := proj.ff;
      WordStep(|done|);
      next := Word(n + 1);
      stopped := BackprojectLoaded(done, g);
      if stopped {
        proj.CloseFindFile();
        return;
      }
      ReportsStep(base, Plain, |done|, proj.numProj);
      posted := posted + [Progress(next, Word(proj.numProj))];
      PendingStep(done, proj.frames, cursor, f, start);
    }

    /** The body of the backprojector's loop for the projection just loaded: filters
        it, backprojects it and shows the middle slice; on a cancel request it stops
        after the first voxel column. */
    method BackprojectLoaded(ghost done: seq<nat>, ghost g: seq<real>) returns (stopped: bool)
      requires Valid() && proj.Valid() && slices > 0 && FramesUsable() && Projections(done)
      requires 0 <= proj.ff < |proj.frames| && !IsBlankScan(proj.frames[proj.ff])
      requires Snapshot(proj.pd) == proj.Normalized(proj.ff) && proj.projAngle == proj.frames[proj.ff].angle
      requires g == proj.G[..] && Holds(recon, Plain, done, g)
      modifies recon, displaySlice, proj.pd, proj.temp
      ensures stopped == StopsEarly()
      ensures Projections(done + [proj.ff])
      ensures !stopped ==> Holds(recon, Plain, done + [proj.ff], g) && ShowsMiddle(recon)
      ensures stopped && done == [] ==> Cancelled(recon, Plain, proj.ff, g)
      ensures stopped ==> unchanged(displaySlice)
    {
      var status := proj.Filter();
      var t := Pi * (proj.projAngle + 90.0) / 180.0;
      var view := View(proj.lib.cos(t), proj.lib.sin(t), proj.GetYOffset(), proj.GetZOffset());
      stopped := BackprojectProjection(Plain, done, proj.ff, g, view);
      if !stopped {
        CopyDisplay();
      }
    }

    /** Backprojects projection `f`, already filtered, into a volume holding the
        projections `done`; on a cancel request it stops after the first voxel column. */
    method BackprojectProjection(ghost pass: Pass, ghost done: seq<nat>, ghost f: nat, ghost g: seq<real>, view: View)
      returns (stopped: bool)
      requires Valid() && proj.Shaped() && FramesUsable() && |g| == 2 * proj.rows
      requires Projections(done) && f < |proj.frames| && !IsBlankScan(proj.frames[f])
      requires PassUsable(pass) && view == ViewOf(proj.frames[f].angle) && Snapshot(proj.pd) == Sinogram(pass, f, g)
      requires Holds(recon, pass, done, g)
      modifies recon
      ensures stopped == StopsEarly()
      ensures Projections(done + [f])
      ensures !stopped ==> Holds(recon, pass, done + [f], g)
      ensures stopped && done == [] ==> Cancelled(recon, pass, f, g)
    {
      AccumulatedStep(pass, done, f, g);
      stopped := BackprojectFrame(pass, f, g, view);
    }

    /** Backprojects projection `f` of the pass, already filtered, under its view. */
    method BackprojectFrame(ghost pass: Pass, ghost f: nat, ghost g: seq<real>, view: View) returns (stopped: bool)
      requires Valid() && proj.Shaped() && FramesUsable() && |g| == 2 * proj.rows
      requires f < |proj.frames| && !IsBlankScan(proj.frames[f])
      requires PassUsable(pass) && view == ViewOf(proj.frames[f].angle) && Snapshot(proj.pd) == Sinogram(pass, f, g)
      modifies recon
      ensures stopped == StopsEarly()
      ensures !stopped ==> forall i, j, k :: 0 <= i < slices && 0 <= j < rows && 0 <= k < cols ==>
        recon[i, j, k] == old(recon[i, j, k]) +
          Contribution(proj.DetectorGeometry(), ViewOf(proj.frames[f].angle), Sinogram(pass, f, g), x[k], y[j], z[i])
      ensures stopped ==> forall i :: 0 <= i < slices ==>
        recon[i, 0, 0] == old(recon[i, 0, 0]) +
          Contribution(proj.DetectorGeometry(), ViewOf(proj.frames[f].angle), Sinogram(pass, f, g), x[0], y[0], z[i])
      ensures stopped ==> forall i, j, k :: 0 <= i < slices && 0 <= j < rows && 0 <= k < cols && (j != 0 || k != 0) ==>
        recon[i, j, k] == old(recon[i, j, k])
    {
      stopped := BackprojectView(view, Snapshot(proj.pd));
    }

    /** What the marking loops may rely on: the scene `s` is the one of view `v` on this
        grid and detector, with the voxels of `prev` and the current threshold, and the
        mask covers the detector. */
    ghost predicate Marking(prev: array3<real>, mask: array2<int>, v: View, s: Scene)
      reads this, prev
    {
      Valid() && proj.Shaped() && WellFormed(s) && s.d == proj.DetectorGeometry() && s.v == v &&
      s.x == x && s.y == y && s.z == z && s.level == threshold &&
      prev.Length0 == slices && prev.Length1 == rows && prev.Length2 == cols &&
      (forall i, j, k :: 0 <= i < slices && 0 <= j < rows && 0 <= k < cols ==> prev[i, j, k] == s.prev[i][j][k]) &&
      mask.Length0 == proj.rows && mask.Length1 == proj.cols
    }

    /** Marks the four detector cells around the projection of voxel (i, j, k) when the
        voxel is above the threshold and its cell passes the backprojector's guard. */
    method MarkVoxel(prev: array3<real>, mask: array2<int>, v: View, ghost s: Scene, ray: Ray, i: nat, j: nat, k: nat)
      requires Marking(prev, mask, v, s) && i < slices && j < rows && k < cols
      requires ray == CastRay(proj.DetectorGeometry(), x[k], y[j], v)
      modifies mask
      ensures forall r, c :: 0 <= r < proj.rows && 0 <= c < proj.cols ==>
        mask[r, c] == if Hits(s, i, j, k, r, c) then 1 else old(mask[r, c])
    {
      if prev[i, j, k] > threshold {
        var d := proj.DetectorGeometry();
        var cell := Locate(ray.yp, DetectorZ(d, ray, z[i], v));
        if Interior(cell, d.rows, d.cols) {
          mask[cell.fy, cell.fz] := 1;
          mask[cell.fy + 1, cell.fz] := 1;
          mask[cell.fy, cell.fz + 1] := 1;
          mask[cell.fy + 1, cell.fz + 1] := 1;
        }
      }
    }

    /** Every slice of voxel column (j, k) marked. */
    method MarkColumn(prev: array3<real>, mask: array2<int>, v: View, ghost s: Scene, j: nat, k: nat)
      requires Marking(prev, mask, v, s) && j < rows && k < cols
      modifies mask
      ensures forall r, c :: 0 <= r < proj.rows && 0 <= c < proj.cols ==>
        mask[r, c] == if ColumnHits(s, j, k, slices, r, c) then 1 else old(mask[r, c])
    {
      var ray := CastRay(proj.DetectorGeometry(), x[k], y[j], v);
      for i := 0 to slices
        invariant forall r, c :: 0 <= r < proj.rows && 0 <= c < proj.cols ==>
          mask[r, c] == if ColumnHits(s, j, k, i, r, c) then 1 else old(mask[r, c])
      {
        MarkVoxel(prev, mask, v, s, ray, i, j, k);
        forall r, c | 0 <= r < proj.rows && 0 <= c < proj.cols
          ensures ColumnHits(s, j, k, i + 1, r, c) <==> ColumnHits(s, j, k, i, r, c) || Hits(s, i, j, k, r, c)
        {
          ColumnHitsStep(s, j, k, i, r, c);
        }
      }
    }

    /** Every voxel column of row `j` marked. */
    method MarkRow(prev: array3<real>, mask: array2<int>, v: View, ghost s: Scene, j: nat)
      requires Marking(prev, mask, v, s) && j < rows
      modifies mask
      ensures forall r, c :: 0 <= r < proj.rows && 0 <= c < proj.cols ==>
        mask[r, c] == if RowHits(s, j, cols, r, c) then 1 else old(mask[r, c])
    {
      for k := 0 to cols
        invariant forall r, c :: 0 <= r < proj.rows && 0 <= c < proj.cols ==>
          mask[r, c] == if RowHits(s, j, k, r, c) then 1 else old(mask[r, c])
      {
        MarkColumn(prev, mask, v, s, j, k);
        forall r, c | 0 <= r < proj.rows && 0 <= c < proj.cols
          ensures RowHits(s, j, k + 1, r, c) <==> RowHits(s, j, k, r, c) || ColumnHits(s, j, k, slices, r, c)
        {
          RowHitsStep(s, j, k, r, c);
        }
      }
    }

    /** Clears the mask, then marks the detector cells onto which the metal voxels of
        `prev` project in view `v`: the mask becomes the scene's `Mask`. */
    method MarkMetal(prev: array3<real>, mask: array2<int>, v: View, ghost s: Scene)
      requires Marking(prev, mask, v, s)
      modifies mask
      ensures forall r, c :: 0 <= r < proj.rows && 0 <= c < proj.cols ==> mask[r, c] == if Mask(s)[r][c] then 1 else 0
      ensures Marks(mask) == Mask(s)
    {
      ClearMask(mask);
      for j := 0 to rows
        invariant forall r, c :: 0 <= r < proj.rows && 0 <= c < proj.cols ==> mask[r, c] == if VolumeHits(s, j, r, c) then 1 else 0
      {
        MarkRow(prev, mask, v, s, j);
        forall r, c | 0 <= r < proj.rows && 0 <= c < proj.cols
          ensures VolumeHits(s, j + 1, r, c) <==> VolumeHits(s, j, r, c) || RowHits(s, j, cols, r, c)
        {
          VolumeHitsStep(s, j, r, c);
        }
      }
      GridExt(Marks(mask), Mask(s), proj.rows, proj.cols);
    }

    /** The metal-artefact pass: keeps the current volume as the previous one and
        reconstructs into a new zero volume; discards the first projection, then for
        every further one marks the detector cells hit by voxels above the threshold,
        interpolates those cells away along each detector column, filters and
        backprojects, shows the middle slice and posts progress with a counter that
        stays 0. No completion is posted. A cancel request stops it after the first
        voxel column of the first projection, with the enumeration closed and nothing
        posted. */
    method RemoveMetal()
      requires Valid() && proj.Valid() && slices > 0 && FramesUsable()
      requires PassUsable(Metal(Contents(recon), threshold))
      modifies this, displaySlice, proj, proj.pd, proj.temp
      ensures Valid() && proj.Valid() && fresh(recon) && proj.ff == -1
      ensures threshold == old(threshold) && cancel == old(cancel)
      ensures var fs := Pending(proj.frames, AfterDiscard(old(proj.ff)));
        var pass := Metal(old(Contents(recon)), threshold);
        Projections(fs) &&
        if StopsEarly() && fs != [] then
          posted == old(posted) && unchanged(displaySlice) && Cancelled(recon, pass, fs[0], proj.G[..])
        else
          Holds(recon, pass, fs, proj.G[..]) && (fs != [] ==> ShowsMiddle(recon)) && (fs == [] ==> unchanged(displaySlice)) &&
          posted == old(posted) + Reports(pass, |fs|, proj.numProj)
    {
      ghost var pass := Metal(Contents(recon), threshold);
      var mask := new int[proj.rows, proj.cols];
      var prev := recon;
      var v := ZeroVolume(slices, rows, cols);
      recon := v;
      var n := 0;
      DiscardFirst();
      ghost var start := proj.ff;
      var stopped := MetalPending(old(posted), start, proj.G[..], pass, prev, mask, n);
    }

    /** The metal pass's loop over the projections pending after `start`, from a zero
        volume. Reports whether a cancel request stopped it. */
    method MetalPending(ghost base: seq<Event>, ghost start: int, ghost g: seq<real>, ghost pass: Pass,
                        prev: array3<real>, mask: array2<int>, n: int)
      returns (stopped: bool)
      requires Valid() && proj.Valid() && proj.ff == start && proj.G[..] == g && slices > 0 && FramesUsable()
      requires pass.Metal? && PassUsable(pass) && pass.level == threshold && n == 0
      requires prev != recon && prev.Length0 == slices && prev.Length1 == rows && prev.Length2 == cols
      requires forall i, j, k :: 0 <= i < slices && 0 <= j < rows && 0 <= k < cols ==> prev[i, j, k] == pass.previous[i][j][k]
      requires mask.Length0 == proj.rows && mask.Length1 == proj.cols
      requires posted == base && forall i, j, k :: 0 <= i < slices && 0 <= j < rows && 0 <= k < cols ==> recon[i, j, k] == 0.0
      modifies this, recon, displaySlice, proj, proj.pd, proj.temp, mask
      ensures Valid() && proj.Valid() && recon == old(recon) && proj.ff == -1
      ensures threshold == old(threshold) && cancel == old(cancel) && proj.G[..] == g
      ensures var fs := Pending(proj.frames, start);
        Projections(fs) && stopped == (StopsEarly() && fs != []) &&
        if stopped then
          posted == base && unchanged(displaySlice) && Cancelled(recon, pass, fs[0], g)
        else
          Holds(recon, pass, fs, g) && (fs != [] ==> ShowsMiddle(recon)) && (fs == [] ==> unchanged(displaySlice)) &&
          posted == base + Reports(pass, |fs|, proj.numProj)
    {
      ghost var done: seq<nat> := [];
      ghost var cursor := start;
      while true
        invariant recon == old(recon) && threshold == old(threshold) && cancel == old(cancel)
        invariant Running(pass, base, start, g, done, n, cursor) && proj.Valid() && proj.ff == cursor
        invariant done == [] ==> unchanged(displaySlice)
        decreases |proj.frames| - cursor
      {
        var loaded;
        loaded, stopped, done, cursor := MetalStep(base, start, g, pass, prev, mask, done, n, cursor);
        if !loaded {
          break;
        }
        if stopped {
          return;
        }
      }
      assert done + [] == done;
    }

    /** One round of the metal pass's loop: load the next projection and, if there is
        one, mark, interpolate, filter and backproject it, show the middle slice and
        post progress. */
    method MetalStep(ghost base: seq<Event>, ghost start: int, ghost g: seq<real>, ghost pass: Pass,
                     prev: array3<real>, mask: array2<int>, ghost done: seq<nat>, n: int, ghost cursor: int)
      returns (loaded: bool, stopped: bool, ghost done': seq<nat>, ghost cursor': int)
      requires Running(pass, base, start, g, done, n, cursor) && proj.Valid() && proj.ff == cursor
      requires pass.Metal? && pass.level == threshold && n == 0
      requires prev != recon && prev.Length0 == slices && prev.Length1 == rows && prev.Length2 == cols
      requires forall i, j, k :: 0 <= i < slices && 0 <= j < rows && 0 <= k < cols ==> prev[i, j, k] == pass.previous[i][j][k]
      requires mask.Length0 == proj.rows && mask.Length1 == proj.cols
      modifies this, recon, displaySlice, proj, proj.pd, proj.temp, mask
      ensures recon == old(recon) && threshold == old(threshold) && cancel == old(cancel) && proj.Valid()
      ensures !stopped ==> Running(pass, base, start, g, done', n, cursor')
      ensures loaded && !stopped ==> proj.ff == cursor' > cursor
      ensures loaded ==> done' == done + [cursor']
      ensures !loaded ==> !stopped && proj.ff == -1 && done' == done && Pending(proj.frames, cursor) == [] && unchanged(displaySlice)
      ensures stopped ==> Valid() && proj.Valid() && proj.ff == -1 && StopsEarly() && done == [] && posted == old(posted)
      ensures stopped ==> unchanged(displaySlice)
      ensures stopped ==> Pending(proj.frames, start) != [] && Cancelled(recon, pass, Pending(proj.frames, start)[0], g)
    {
      loaded := LoadPending(pass, base, start, g, done, n, cursor);
      if !loaded {
        return false, false, done, cursor;
      }
      cursor' := proj.ff;
      done' := done + [cursor'];
      stopped := MetalAdvance(base, start, g, pass, prev, mask, done, n, cursor);
    }

    /** The rest of a metal round once a projection is loaded: mark, interpolate,
        filter and backproject it, show the middle slice and post progress, or close the
        enumeration when a cancel request stops the backprojection. */
    method MetalAdvance(ghost base: seq<Event>, ghost start: int, ghost g: seq<real>, ghost pass: Pass,
                        prev: array3<real>, mask: array2<int>, ghost done: seq<nat>, n: int, ghost cursor: int)
      returns (stopped: bool)
      requires Running(pass, base, start, g, done, n, cursor) && proj.Valid()
      requires pass.Metal? && pass.level == threshold && n == 0
      requires prev != recon && prev.Length0 == slices && prev.Length1 == rows && prev.Length2 == cols
      requires forall i, j, k :: 0 <= i < slices && 0 <= j < rows && 0 <= k < cols ==> prev[i, j, k] == pass.previous[i][j][k]
      requires mask.Length0 == proj.rows && mask.Length1 == proj.cols
      requires cursor < proj.ff < |proj.frames| && !IsBlankScan(proj.frames[proj.ff])
      requires Pending(proj.frames, cursor) == [proj.ff] + Pending(proj.frames, proj.ff)
      requires Snapshot(proj.pd) == proj.Normalized(proj.ff) && proj.projAngle == proj.frames[proj.ff].angle
      modifies this, recon, displaySlice, proj, proj.pd, proj.temp, mask
      ensures recon == old(recon) && threshold == old(threshold) && cancel == old(cancel) && proj.Valid()
      ensures !stopped ==> Running(pass, base, start, g, done + [old(proj.ff)], n, old(proj.ff)) && proj.ff == old(proj.ff)
      ensures stopped ==> Valid() && proj.Valid() && proj.ff == -1 && StopsEarly() && done == [] && posted == old(posted)
      ensures stopped ==> unchanged(displaySlice)
      ensures stopped ==> Cancelled(recon, pass, old(proj.ff), g)
    {
      ghost var f: nat := proj.ff;
      stopped := MetalLoaded(pass, prev, mask, done, g);
      if stopped {
        proj.CloseFindFile();
        return;
      }
      ReportsStep(base, pass, |done|, proj.numProj);
      posted := posted + [Progress(n, Word(proj.numProj))];
      PendingStep(done, proj.frames, cursor, f, start);
    }

    /** The body of the metal pass's loop for the projection just loaded: marks the
        metal cells, interpolates them away, filters and backprojects the projection and
        shows the middle slice; on a cancel request it stops after the first voxel
        column. */
    method MetalLoaded(ghost pass: Pass, prev: array3<real>, mask: array2<int>, ghost done: seq<nat>, ghost g: seq<real>)
      returns (stopped: bool)
      requires Valid() && proj.Valid() && slices > 0 && FramesUsable() && Projections(done)
      requires pass.Metal? && PassUsable(pass) && pass.level == threshold
      requires prev.Length0 == slices && prev.Length1 == rows && prev.Length2 == cols
      requires forall i, j, k :: 0 <= i < slices && 0 <= j < rows && 0 <= k < cols ==> prev[i, j, k] == pass.previous[i][j][k]
      requires mask.Length0 == proj.rows && mask.Length1 == proj.cols
      requires 0 <= proj.ff < |proj.frames| && !IsBlankScan(proj.frames[proj.ff])
      requires Snapshot(proj.pd) == proj.Normalized(proj.ff) && proj.projAngle == proj.frames[proj.ff].angle
      requires g == proj.G[..] && Holds(recon, pass, done, g)
      modifies recon, displaySlice, proj.pd, proj.temp, mask
      ensures stopped == StopsEarly()
      ensures Projections(done + [proj.ff])
      ensures !stopped ==> Holds(recon, pass, done + [proj.ff], g) && ShowsMiddle(recon)
      ensures stopped && done == [] ==> Cancelled(recon, pass, proj.ff, g)
      ensures stopped ==> unchanged(displaySlice)
    {
      var t := Pi * (proj.projAngle + 90.0) / 180.0;
      var view := View(proj.lib.cos(t), proj.lib.sin(t), proj.GetYOffset(), proj.GetZOffset());
      ghost var s := SceneOf(pass, proj.ff);
      MarkMetal(prev, mask, view, s);
      forall r, c | 0 <= r < proj.rows && 0 <= c < proj.cols && mask[r, c] != 0
        ensures 2 <= r <= proj.rows - 2
      {
        MaskRowsAdmissible(s, r, c);
      }
      var status := proj.Interpolate(mask);
      status := proj.Filter();
      stopped := BackprojectProjection(pass, done, proj.ff, g, view);
      if !stopped {
        CopyDisplay();
      }
    }

    /** The middle slice copied into the display buffer. */
    method CopyDisplay()
      requires Valid() && slices > 0
      modifies displaySlice
      ensures forall j, k :: 0 <= j < rows && 0 <= k < cols ==> displaySlice[j, k] == recon[slices / 2, j, k]
    {
      for j := 0 to rows
        invariant forall j', k :: 0 <= j' < j && 0 <= k < cols ==> displaySlice[j', k] == recon[slices / 2, j', k]
      {
        for k := 0 to cols
          invariant forall j', k' :: 0 <= j' < j && 0 <= k' < cols ==> displaySlice[j', k'] == recon[slices / 2, j', k']
          invariant forall k' :: 0 <= k' < k ==> displaySlice[j, k'] == recon[slices / 2, j, k']
        {
          displaySlice[j, k] := recon[slices / 2, j, k];
        }
      }
    }

    /** The innermost loop of the backprojector: every slice of voxel column (j, k)
        accumulates its contribution from the projection in `pd`. */
    method BackprojectColumn(v: View, ghost p: Grid<real>, j: nat, k: nat)
      requires Valid() && proj.Shaped() && j < rows && k < cols
      requires p == Snapshot(proj.pd) && RayDefined(proj.DetectorGeometry(), x[k], y[j], v)
      modifies recon
      ensures forall i :: 0 <= i < slices ==>
        recon[i, j, k] == old(recon[i, j, k]) + Contribution(proj.DetectorGeometry(), v, p, x[k], y[j], z[i])
      ensures forall i, j', k' :: 0 <= i < slices && 0 <= j' < rows && 0 <= k' < cols && (j' != j || k' != k) ==>
        recon[i, j', k'] == old(recon[i, j', k'])
    {
      var d := proj.DetectorGeometry();
      var r := CastRay(d, x[k], y[j], v);
      for i := 0 to slices
        invariant forall i' :: 0 <= i' < i ==>
          recon[i', j, k] == old(recon[i', j, k]) + Contribution(d, v, p, x[k], y[j], z[i'])
        invariant forall i' :: i <= i' < slices ==> recon[i', j, k] == old(recon[i', j, k])
        invariant forall i', j', k' :: 0 <= i' < slices && 0 <= j' < rows && 0 <= k' < cols && (j' != j || k' != k) ==>
          recon[i', j', k'] == old(recon[i', j', k'])
      {
        BackprojectVoxel(v, p, r, i, j, k);
      }
    }

    /** One voxel: the guard on the detector cell, then the weighted bilinear sample. */
    method BackprojectVoxel(v: View, ghost p: Grid<real>, r: Ray, i: nat, j: nat, k: nat)
      requires Valid() && proj.Shaped() && i < slices && j < rows && k < cols
      requires p == Snapshot(proj.pd) && RayDefined(proj.DetectorGeometry(), x[k], y[j], v)
      requires r == CastRay(proj.DetectorGeometry(), x[k], y[j], v)
      modifies recon
      ensures recon[i, j, k] == old(recon[i, j, k]) + Contribution(proj.DetectorGeometry(), v, p, x[k], y[j], z[i])
      ensures forall i', j', k' :: 0 <= i' < slices && 0 <= j' < rows && 0 <= k' < cols && (i' != i || j' != j || k' != k) ==>
        recon[i', j', k'] == old(recon[i', j', k'])
    {
      var d := proj.DetectorGeometry();
      var cell := Locate(r.yp, DetectorZ(d, r, z[i], v));
      if Interior(cell, d.rows, d.cols) {
        recon[i, j, k] := recon[i, j, k] + r.scale *
          Bilinear(proj.pd[cell.fy, cell.fz], proj.pd[cell.fy + 1, cell.fz],
                   proj.pd[cell.fy, cell.fz + 1], proj.pd[cell.fy + 1, cell.fz + 1], cell.dy, cell.dz);
      }
    }

    /** Voxel row `j` under view `v`, column by column; a cancel request stops it after
        the first column. */
    method BackprojectRow(v: View, ghost p: Grid<real>, j: nat) returns (stopped: bool)
      requires Valid() && proj.Shaped() && j < rows
      requires p == Snapshot(proj.pd) && RaysDefined(v)
      modifies recon
      ensures stopped == (cancel && cols > 0)
      ensures forall i, k :: 0 <= i < slices && 0 <= k < cols ==>
        recon[i, j, k] == old(recon[i, j, k]) +
          if !stopped || k == 0 then Contribution(proj.DetectorGeometry(), v, p, x[k], y[j], z[i]) else 0.0
      ensures forall i, j', k :: 0 <= i < slices && 0 <= j' < rows && 0 <= k < cols && j' != j ==>
        recon[i, j', k] == old(recon[i, j', k])
    {
      for k := 0 to cols
        invariant forall i, k' :: 0 <= i < slices && 0 <= k' < k ==>
          recon[i, j, k'] == old(recon[i, j, k']) + Contribution(proj.DetectorGeometry(), v, p, x[k'], y[j], z[i])
        invariant forall i, k' :: 0 <= i < slices && k <= k' < cols ==> recon[i, j, k'] == old(recon[i, j, k'])
        invariant forall i, j', k' :: 0 <= i < slices && 0 <= j' < rows && 0 <= k' < cols && j' != j ==>
          recon[i, j', k'] == old(recon[i, j', k'])
        invariant !cancel || k == 0
      {
        BackprojectColumn(v, p, j, k);
        if cancel {
          return true;
        }
      }
      return false;
    }

    /** Every voxel under view `v`, row by row; a cancel request stops it after the
        first voxel column. */
    method BackprojectView(v: View, ghost p: Grid<real>) returns (stopped: bool)
      requires Valid() && proj.Shaped()
      requires p == Snapshot(proj.pd) && RaysDefined(v)
      modifies recon
      ensures stopped == StopsEarly()
      ensures !stopped ==> forall i, j, k :: 0 <= i < slices && 0 <= j < rows && 0 <= k < cols ==>
        recon[i, j, k] == old(recon[i, j, k]) + Contribution(proj.DetectorGeometry(), v, p, x[k], y[j], z[i])
      ensures stopped ==> forall i :: 0 <= i < slices ==>
        recon[i, 0, 0] == old(recon[i, 0, 0]) + Contribution(proj.DetectorGeometry(), v, p, x[0], y[0], z[i])
      ensures stopped ==> forall i, j, k :: 0 <= i < slices && 0 <= j < rows && 0 <= k < cols && (j != 0 || k != 0) ==>
        recon[i, j, k] == old(recon[i, j, k])
    {
      stopped := false;
      for j := 0 to rows
        invariant !stopped
        invariant forall i, j', k :: 0 <= i < slices && 0 <= j' < j && 0 <= k < cols ==>
          recon[i, j', k] == old(recon[i, j', k]) + Contribution(proj.DetectorGeometry(), v, p, x[k], y[j'], z[i])
        invariant forall i, j', k :: 0 <= i < slices && j <= j' < rows && 0 <= k < cols ==>
          recon[i, j', k] == old(recon[i, j', k])
        invariant !cancel || cols == 0 || j == 0
      {
        stopped := BackprojectRow(v, p, j);
        if stopped {
          return;
        }
      }
    }

    /** Sets the threshold above which a voxel counts as metal. */
    method SetMetalThreshold(t: real)
      modifies this
      ensures threshold == t
      ensures recon == old(recon) && cancel == old(cancel) && posted == old(posted)
    {
      threshold := t;
    }

    /** Asks a running reconstruction to stop after the current voxel column. */
    method CancelRecon()
      modifies this
      ensures cancel
      ensures recon == old(recon) && threshold == old(threshold) && posted == old(posted)
    {
      cancel := true;
    }
  }
}
