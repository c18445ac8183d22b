# Cone-beam CT reconstruction engine, modelled in Dafny

This project models the reconstruction engine of a Windows cone-beam CT reconstructor
(`ct_recon_win.h`): its `Projection` and `Reconstruction` classes, and the pixel, slice
vector and UID logic of `WriteDicom`. Floating point is modelled as `real`. `log`, `sin`,
`cos`, `sqrt`, the filter windows and the FFT are abstract functions gathered in a
`MathLib` value. The only facts they carry are that the FFT keeps the length of its
buffer and that `sqrt` is positive on positive arguments.

Modules, in dependency order:

- `CMath`: C truncation of a double to an `int`, the unsigned 16-bit word, and block
  arithmetic for flat array indices.
- `Grids`: detector grids as sequences of rows, with snapshots of `array2`/`array3`.
- `Geometry`:
  - the calibration-table index, which uses C's signed remainder;
  - the centred voxel axis;
  - the cone-beam projection of a voxel, the detector cell it lands in and the
    interior guard;
  - the bilinear sample and the contribution of one projection to one voxel.
- `FilterKernel`: the kernel that `CreateFilter` leaves in `G`, as a function of the
  family, the cutoff and the previous contents of `G`.
- `Numerics`: the abstract floating-point library.
- `ColumnFilter`: the column filtering of `Filter`. Each column is packed into a
  zero-padded interleaved complex buffer, transformed, scaled bin by bin, transformed
  back and unpacked.
- `GapFill`: the gap interpolation of `Interpolate`, one column at a time.
- `FrameSource`: the projection files as a sequence of frames. The `ff` cursor,
  `strstr` on the ImageType, the blank-scan search and the list of projections still
  pending after a cursor.
- `BeamHardening`: the per-voltage cubic correction.
- `Projections`: the `Projection` class. Its working projection `pd`, kernel `G` and
  transform buffer `temp` are arrays that its methods update in place, loop by loop.
- `Metal`: the detector mask of the metal pass: the cells hit by voxels of the
  previous volume that lie above the threshold.
- `Reconstructions`: the `Reconstruction` class. Its methods:
  - the voxel grid;
  - `Backproject` and `RemoveMetal`, which are proved against `Accumulated`, the sum of
    the contributions of the projections read;
  - the mask marking;
  - the display copy;
  - the progress messages, modelled as a sequence of events.
- `Dicom`: the pixel buffer (slice and row order reversed, values clamped at zero),
  the slice vector, and the SOP and series instance UIDs, as strings.

The model follows the code where it behaves differently from what its names suggest:

- **Gap interpolation.** A masked run a..b is not bridged by a line from row a-1 to
  row b+1 (which would turn `[10, m, m, m, 30]` into `[10, 15, 20, 25, 30]`). The code
  anchors the line at row a-2 and also overwrites the unmasked row a-1
  (ct_recon_win.h:443-449). `GapFill.OverwritesRowAboveRun` shows this on a concrete
  column.
- **Calibration-table index.** The index does not always wrap into [0, 360). The
  code's `%` keeps the sign of the dividend, so angles that round below -180 degrees
  give a negative index (ct_recon_win.h:225-227). `Geometry.OffsetIndex` states
  exactly when.
- **Progress reports.** The metal pass posts a progress message per projection, like
  the plain pass, but never advances its counter (ct_recon_win.h:1175, 1293), so every
  metal-pass report says 0. The plain pass counts in an `unsigned short`.
- **Cosine weights.** The cosine map is not a per-cell foreshortening correction. The
  code computes the column offset from the row index (ct_recon_win.h:194), so the
  weight depends on the row only.
- **Mirror loop.** The kernel is not mirrored from bin `rows + 1` on. The code's mirror
  loop starts wherever the preceding loop stopped (ct_recon_win.h:294). After Ram-Lak
  with a cutoff above 1 this is later than `rows + 1`.

## Model

| member | source | states |
|---|---|---|
| CMath.Trunc | ct_recon_win.h:253 | a double converted to `int` is truncated toward zero: within one below a non-negative value, within one above a negative one |
| CMath.Word | ct_recon_win.h:1057 | an `unsigned short` keeps the value modulo 2^16: below 65536, and unchanged when already in range |
| CMath.WordStep | ct_recon_win.h:610 | incrementing the 16-bit counter agrees with counting in integers and then wrapping |
| Grids.FlatIndex | ct_recon_win.h:353 | sample (i, j) of a rows-by-cols frame lies inside the frame's buffer |
| Grids.FlatIndexInjective | ct_recon_win.h:348-353 | distinct samples are read from distinct buffer positions |
| Geometry.DegreeRem | ct_recon_win.h:227 | C's `% 360`: strictly between -360 and 360, equal to the Euclidean remainder for non-negative operands, never positive for negative ones, and congruent to the operand |
| Geometry.OffsetIndex | ct_recon_win.h:222-228 | the table index is in [0, 360) exactly when the rounded angle plus 180 is non-negative or a multiple of 360; it is then `(round(angle) + 180) % 360` |
| Geometry.OffsetIndexPeriodic | ct_recon_win.h:225-227 | a usable index is unchanged by a whole turn of the angle |
| Geometry.OffsetIndexRounds | ct_recon_win.h:225 | angles that round to the same degree read the same slot |
| Geometry.GridCoordCentred | ct_recon_win.h:564-574 | the voxel axis `res * (i - (n-1)/2)` is symmetric about zero and evenly spaced by `res` |
| Geometry.CastRay | ct_recon_win.h:625-631 | the rotated coordinate is `x cos + y sin`; the magnification weight is a square, never negative, and zero only when the source-to-axis distance is |
| Geometry.IsocentreHitsDetectorCentre | ct_recon_win.h:625-637 | with no calibration offset the voxel at the isocentre projects to the detector centre with weight 1 |
| Geometry.Locate | ct_recon_win.h:639-643 | `floor` gives the cell whose corner is at or below the position, with offsets in [0, 1) that add back to the position |
| Geometry.InteriorReadsInBounds | ct_recon_win.h:645-650 | when the guard passes, all four bilinear reads are inside `pd` |
| Geometry.BilinearWeights | ct_recon_win.h:646-650 | the four bilinear weights are non-negative and sum to 1 |
| Geometry.BilinearBounded | ct_recon_win.h:646-650 | a bilinear sample lies between the smallest and largest of its four samples |
| Geometry.BilinearAtCorner | ct_recon_win.h:647 | at offsets (0, 0) the sample is the corner sample |
| Geometry.Contribution | ct_recon_win.h:639-650 | a voxel whose cell fails the interior guard receives nothing from the projection |
| Geometry.ContributionBounded | ct_recon_win.h:645-650 | a contribution is the magnification weight times a value within the projection's range |
| FilterKernel.ZeroFromBounds | ct_recon_win.h:253 | for cutoff <= 1 the cleared bins start at or before `rows + 1`; for cutoff >= 0 they start above bin 0 |
| FilterKernel.Kernel | ct_recon_win.h:240-297 | bins 0..rows hold the ramp after cutoff and window; bins from the mirror start hold the mirror image; any bins skipped by a late mirror start keep their previous value |
| FilterKernel.KernelStopBand | ct_recon_win.h:248-254 | for a family with a case, G[0] = 0 and every bin from `trunc(rows*cutoff + 1)` to `rows` is 0, and so is its mirror when cutoff <= 1 |
| FilterKernel.RamLakRamp | ct_recon_win.h:248-260 | below the cutoff the Ram-Lak kernel is `i / rows` |
| FilterKernel.KernelSymmetric | ct_recon_win.h:293-297 | for any family but Ram-Lak, or with cutoff <= 1, G[t] = G[2 rows - t] for rows < t < 2 rows |
| FilterKernel.RamLakLateMirror | ct_recon_win.h:253-296 | Ram-Lak with a cutoff above 1 leaves the bins between `rows` and the cutoff bin as they were |
| FilterKernel.UnlistedFamilyIsUnity | ct_recon_win.h:286-297 | Blackman, which has no case, gets a kernel of ones in every bin |
| ColumnFilter.Pack | ct_recon_win.h:404-413 | sample i is the real part of bin i; every imaginary part and every bin from `rows` on is 0 |
| ColumnFilter.Scale | ct_recon_win.h:415-419 | both parts of bin i are multiplied by G[i] |
| ColumnFilter.Unpack | ct_recon_win.h:421-422 | the column is read back from the real parts of the first `rows` bins |
| ColumnFilter.UnpackPack | ct_recon_win.h:404-422 | unpacking a packed column gives the column back |
| ColumnFilter.ScaleByOnes | ct_recon_win.h:415-419 | a kernel of ones leaves the buffer unchanged |
| ColumnFilter.UnityKernelPassesColumn | ct_recon_win.h:402-423 | with a unity kernel and an inverse transform that undoes the forward one, a column comes back unchanged |
| ColumnFilter.Weighted | ct_recon_win.h:397-399 | every sample is multiplied by its cosine weight |
| ColumnFilter.FilterGrid | ct_recon_win.h:396-423 | sample (i, j) after `Filter` is row i of the filtered column j of the weighted projection |
| ColumnFilter.UnityKernelOnlyWeights | ct_recon_win.h:392-426 | with a unity kernel and an inverse transform that undoes the forward one, `Filter` only applies the cosine weights |
| GapFill.RunEnd | ct_recon_win.h:443-446 | the scan stops at the last masked row of the run, and the row after it is unmasked and inside the column |
| GapFill.LineEnds | ct_recon_win.h:447-449 | the fill line starts at the anchor above the run and reaches the anchor below it |
| GapFill.FillRun | ct_recon_win.h:443-449 | rows a-1..b lie on the line from row a-2 to row b+1; every other row is unchanged |
| GapFill.ScanFillsRun | ct_recon_win.h:441-451 | a scan that meets a masked row fills its run and resumes two rows past the run's end |
| GapFill.ScanPassesOver | ct_recon_win.h:439-441 | a scan that meets an unmasked row moves to the next one |
| GapFill.ScanStepKeeps | ct_recon_win.h:439-451 | a step of the scan, a run filled or a row passed over, does not change the column the scan ends with |
| GapFill.ScanKeeps | ct_recon_win.h:439-451 | the scan does not touch rows it has passed, nor an unmasked row that has an unmasked row below it |
| GapFill.RunStartRamp | ct_recon_win.h:443-449 | the scan that starts at a maximal run a..b puts rows a-1..b on the line from row a-2 to row b+1, and leaves both anchors as they are |
| GapFill.ScanRamp | ct_recon_win.h:439-451 | the scan puts every maximal run, together with the row above it, on the line from row a-2 (as filled) to row b+1 |
| GapFill.FillKeepsUncovered | ct_recon_win.h:437-454 | a row that is neither masked nor directly above a masked row keeps its value |
| GapFill.FillRamp | ct_recon_win.h:437-454 | after `Interpolate`, rows a-1..b of each maximal run a..b lie on the line from row a-2 to row b+1 |
| GapFill.OverwritesRowAboveRun | ct_recon_win.h:443-449 | a seven-row column with rows 2..4 masked becomes `[0, 6, 12, 18, 24, 30, 0]`: unmasked row 1 is rewritten |
| GapFill.FillGrid | ct_recon_win.h:437-455 | each column of the projection is filled over its own column of the mask |
| GapFill.FillGridUnmarked | ct_recon_win.h:437-454 | a mask with no mark leaves the projection unchanged |
| FrameSource.ContainsIffOccurs | ct_recon_win.h:339 | the `strstr` test succeeds exactly when "BLANK SCAN" occurs somewhere in the ImageType |
| FrameSource.FirstBlank | ct_recon_win.h:150-180 | the blank scan found is the first file whose ImageType names one; with none found, no file does |
| FrameSource.NextProjection | ct_recon_win.h:316-343 | the next file read is the first non-blank file after the cursor, with only blank scans skipped; there is none exactly when every later file is a blank scan |
| FrameSource.Pending | ct_recon_win.h:316-343 | every file still to be read lies after the cursor and is not a blank scan |
| FrameSource.PendingComplete | ct_recon_win.h:316-343 | the pending files come in increasing order and include every non-blank file after the cursor |
| FrameSource.NextIsPendingHead | ct_recon_win.h:316-343 | a successful read consumes the head of the pending list; a failed read happens exactly when the list is empty |
| BeamHardening.CoefficientsFor | ct_recon_win.h:357-370 | the literal coefficients for 45, 55 and 65 kVp, and the identity cubic for any other voltage |
| BeamHardening.Correct | ct_recon_win.h:357-370 | an uncalibrated voltage leaves the attenuation unchanged; zero attenuation stays zero |
| BeamHardening.EvalNested | ct_recon_win.h:360-366 | the cubic equals its nested (Horner) form |
| BeamHardening.CorrectionPositive | ct_recon_win.h:357-370 | for every attenuation a 16-bit sample can give (0 < P <= 12), the correction of a positive attenuation is positive at every voltage |
| Projections.CosineWeight | ct_recon_win.h:189-196 | the weight has the sign of the source-to-axis distance |
| Projections.CosineWeightIgnoresColumn | ct_recon_win.h:194 | because of the row index used for `z`, the weight is the same in every column of a row |
| Projections.Distance | ct_recon_win.h:195 | the distance from the source to a detector cell is positive |
| Projections.FindBlank | ct_recon_win.h:150-180 | the search loop reports a blank scan exactly when one exists, and returns the first |
| Projections.ReadGrid | ct_recon_win.h:165-169 | the copy loops produce the frame's samples row by row |
| Projections.ZeroGrid | ct_recon_win.h:176-178 | a missing blank scan becomes a grid of zeros |
| Projections.BuildCosineMap | ct_recon_win.h:189-197 | the loops produce the cosine map, with the row offset computed once per row |
| Projections.Reshape | ct_recon_win.h:348-353 | sample (i, j) is element `i*cols + j` of the frame |
| Projections.Difference | ct_recon_win.h:460-466 | entry by entry, `pd - ratio * pd2` |
| Projections.DifferenceUndone | ct_recon_win.h:460-466 | subtracting with `-ratio` afterwards restores the projection |
| Projections.DifferenceWithItself | ct_recon_win.h:460-466 | subtracting a projection from itself scales it by `1 - ratio` |
| Projections.UnityKernel | ct_recon_win.h:199-201 | the initial kernel has `2 rows` bins, all 1 |
| Projections.Projection.constructor | ct_recon_win.h:78-202 | the blank scan is the first blank-scan file (zeros if none), the cosine map is filled, the kernel is unity and no enumeration is left open |
| Projections.Projection.OffsetSlot | ct_recon_win.h:224-227 | the slot is in [0, 360) and equals `(round(angle) + 180) % 360` |
| Projections.Projection.GetYOffset | ct_recon_win.h:222-229 | returns the y table's entry at that slot |
| Projections.Projection.GetZOffset | ct_recon_win.h:231-238 | returns the z table's entry at the same slot |
| Projections.Projection.CreateFilter | ct_recon_win.h:240-300 | `G` becomes `Kernel` of its previous contents, the family and the cutoff |
| Projections.Projection.RampPhase | ct_recon_win.h:248-254 | bins 0..rows hold the ramp with the cutoff applied; returns the index the cutoff loop stopped at |
| Projections.Projection.WindowPhase | ct_recon_win.h:262-284 | bins 1..rows are multiplied by the family's window; returns `rows + 1` |
| Projections.Projection.MirrorPhase | ct_recon_win.h:293-297 | every bin from the start index up copies its previous mirror image; the bins below the start are unchanged |
| Projections.Projection.Normalized | ct_recon_win.h:349-373 | each sample is the beam-hardening-corrected log ratio of the blank sample to the raw sample |
| Projections.Projection.LoadNextProj | ct_recon_win.h:302-381 | reads the next non-blank file into `pd`, sets the angle and cursor and returns 1; with none left, returns 0, resets the cursor to -1 and changes nothing else |
| Projections.Projection.AdvanceCursor | ct_recon_win.h:316-343 | the enumeration loop stops on the next non-blank file, or closes the enumeration when the files run out |
| Projections.Projection.ReadProjection | ct_recon_win.h:348-373 | `pd` becomes the normalised frame |
| Projections.Projection.ReadRow | ct_recon_win.h:350-373 | row i of `pd` becomes row i of the normalised frame; the other rows are unchanged |
| Projections.Projection.CloseFindFile | ct_recon_win.h:383-390 | the cursor is -1 afterwards |
| Projections.Projection.Transform | ct_recon_win.h:414 | the transform replaces the buffer in place |
| Projections.Projection.PackColumn | ct_recon_win.h:404-413 | `temp` becomes the packed column j |
| Projections.Projection.ScaleBins | ct_recon_win.h:415-419 | `temp` becomes the scaled buffer |
| Projections.Projection.UnpackColumn | ct_recon_win.h:421-422 | column j of `pd` is read back from `temp`; the other columns are unchanged |
| Projections.Projection.FilterColumnAt | ct_recon_win.h:402-423 | column j of `pd` becomes its filtered column; the other columns are unchanged |
| Projections.Projection.WeightRow | ct_recon_win.h:397-399 | row i is multiplied by its cosine weights; the other rows are unchanged |
| Projections.Projection.Filter | ct_recon_win.h:392-426 | returns 0, and `pd` becomes `FilterGrid` of its previous contents, the cosine map and `G` |
| Projections.Projection.RunEndAt | ct_recon_win.h:443-446 | the run scan returns the run's last masked row |
| Projections.Projection.FillRunAt | ct_recon_win.h:447-449 | column j becomes the run filled on its line; the other columns are unchanged |
| Projections.Projection.InterpolateFrom | ct_recon_win.h:441-452 | one step of the column scan (`ScanStep`): a masked row has its run filled and the scan resumes two rows past the run; an unmasked row is passed over; other columns are unchanged |
| Projections.Projection.InterpolateRun | ct_recon_win.h:441-451 | at a masked row, column j becomes the run filled on its line and the scan resumes two rows past the run's last row |
| Projections.Projection.InterpolateColumnAt | ct_recon_win.h:439-453 | column j becomes `Fill` of its previous contents over its marks |
| Projections.Projection.Interpolate | ct_recon_win.h:428-458 | returns 0, and `pd` becomes `FillGrid` of its previous contents over the mask's non-zero cells |
| Projections.Projection.Subtract | ct_recon_win.h:460-466 | `pd` becomes `Difference` of the previous `pd` and `pd2`, also when `pd2` is `pd` itself |
| Projections.Projection.SubtractRow | ct_recon_win.h:463-465 | row i is updated; every other row of both arrays is unchanged |
| Metal.Mask | ct_recon_win.h:1189-1228 | a detector cell is marked exactly when some voxel of the previous volume hits it |
| Metal.MaskExactly | ct_recon_win.h:1205-1224 | a cell is marked exactly when some voxel above the threshold, whose cell passes the guard, has it among its four corners |
| Metal.MaskRowsAdmissible | ct_recon_win.h:1218-1238 | when metal voxels land on rows 2..rows-3, every marked row is one `Interpolate` can handle |
| Metal.MaskAdmissible | ct_recon_win.h:1218-1238 | under the same condition the whole mask is admissible for `Interpolate` |
| Metal.MaskAwayFromEdges | ct_recon_win.h:1218-1224 | no cell of the first detector row or column is ever marked |
| Metal.NoMetalNoMask | ct_recon_win.h:1207 | with no voxel above the threshold nothing is marked |
| Metal.AxisVoxelMarksRowOne | ct_recon_win.h:1212-1224 | a metal voxel at the isocentre, seen by a 4 x 4 detector, marks row 1, and that mask is not admissible for `Interpolate` |
| Reconstructions.Counter | ct_recon_win.h:598-610 | the plain pass reports its projection count modulo 2^16; the metal pass always reports 0 |
| Reconstructions.Reports | ct_recon_win.h:671 | one progress message per projection |
| Reconstructions.ReportsCount | ct_recon_win.h:671 | message t reports the counter after t+1 projections, out of the 16-bit projection total |
| Reconstructions.Axis | ct_recon_win.h:564-574 | cell i of an axis is at `res * (i - (n-1)/2)` |
| Reconstructions.BuildAxis | ct_recon_win.h:564-574 | the constructor's loop builds that axis |
| Reconstructions.ZeroVolume | ct_recon_win.h:1165-1174 | a new volume of the grid's shape, all zero |
| Reconstructions.ClearVolume | ct_recon_win.h:602-604 | every voxel is set to zero |
| Reconstructions.ClearMask | ct_recon_win.h:1189-1191 | every mask cell is set to zero |
| Reconstructions.Reconstruction.constructor | ct_recon_win.h:539-585 | a zero volume on the centred grid, threshold 10, no cancel request and no messages posted |
| Reconstructions.Reconstruction.AccumulatedStep | ct_recon_win.h:646-650 | backprojecting one more projection adds its contribution to every voxel |
| Reconstructions.Reconstruction.MetalFreeSinogram | ct_recon_win.h:1207-1240 | with no voxel above the threshold, the metal pass backprojects each projection exactly as the plain pass does |
| Reconstructions.Reconstruction.MetalFreeAccumulated | ct_recon_win.h:1138-1294 | with no voxel above the threshold, the metal pass reconstructs the same volume as the plain pass |
| Reconstructions.Reconstruction.AfterDiscard | ct_recon_win.h:606 | the first, discarded read leaves a valid cursor |
| Reconstructions.Reconstruction.Backproject | ct_recon_win.h:587-676 | the volume is the sum of the contributions of every projection after the discarded one, with one progress message each, then completion, and the display shows the middle slice; the enumeration is closed. A cancel request with projections pending posts nothing and leaves only voxel column (0, 0) holding the first projection's contribution, the rest zero, and the display keeps its contents; with none pending it still posts completion and the display is untouched |
| Reconstructions.Reconstruction.BackprojectPending | ct_recon_win.h:608-672 | the projection loop from a zero volume either accumulates every pending projection, posting a message for each and leaving the middle slice on display, or, on cancel with a projection pending, stops with nothing posted, the display untouched and only the first voxel column of the first projection backprojected; with nothing pending the display is untouched |
| Reconstructions.Reconstruction.BackprojectStep | ct_recon_win.h:608-672 | one round keeps the loop invariant (done and pending files make up the scan; volume, counter, messages and display match the files done), or stops on cancel in the first round with nothing posted and the display untouched; a round that finds nothing to load leaves the display untouched |
| Reconstructions.Reconstruction.DiscardFirst | ct_recon_win.h:606 | the first read moves the cursor past the first pending projection, or closes the enumeration when there is none |
| Reconstructions.Reconstruction.LoadPending | ct_recon_win.h:608 | the loop's read either finds nothing pending and closes the enumeration, or takes the head of the pending list, with its normalised projection in `pd` and its angle; the loop state is kept |
| Reconstructions.Reconstruction.BackprojectAdvance | ct_recon_win.h:610-671 | after a load, the round filters, backprojects, shows the middle slice, counts in 16 bits and posts, or on cancel closes the enumeration without posting or touching the display |
| Reconstructions.Reconstruction.BackprojectLoaded | ct_recon_win.h:614-670 | the loaded projection is filtered, its contribution added to the volume and the middle slice copied to the display; it stops, skipping the copy and leaving the display untouched, exactly when a cancel request meets a grid with at least one voxel column (a cancel on an empty grid does not stop it) |
| Reconstructions.Reconstruction.BackprojectProjection | ct_recon_win.h:621-661 | the volume goes from `Accumulated` of the files done to `Accumulated` with this file added; on cancel from a zero volume only voxel column (0, 0) holds this file's contribution |
| Reconstructions.Reconstruction.BackprojectFrame | ct_recon_win.h:621-661 | the contribution added to each voxel is the one of projection `f` of the pass, under its own view; on cancel only the first voxel column gains it |
| Reconstructions.Reconstruction.BackprojectView | ct_recon_win.h:621-661 | every voxel gains its contribution from the projection; on cancel only the first voxel column does and the rest are unchanged |
| Reconstructions.Reconstruction.BackprojectRow | ct_recon_win.h:623-660 | voxel row j gains its contributions; the other rows are unchanged |
| Reconstructions.Reconstruction.BackprojectColumn | ct_recon_win.h:633-652 | every slice of voxel column (j, k) gains its contribution; the other voxels are unchanged |
| Reconstructions.Reconstruction.BackprojectVoxel | ct_recon_win.h:636-650 | one voxel gains its contribution, or nothing when the guard fails |
| Reconstructions.Reconstruction.CopyDisplay | ct_recon_win.h:663-670 | the display buffer becomes slice `slices/2` of the volume |
| Reconstructions.Reconstruction.MarkVoxel | ct_recon_win.h:1207-1224 | the four corners of a metal voxel's interior cell are set to 1; nothing else changes |
| Reconstructions.Reconstruction.MarkColumn | ct_recon_win.h:1205-1226 | the cells hit by the voxel column are set to 1; the rest are unchanged |
| Reconstructions.Reconstruction.MarkRow | ct_recon_win.h:1195-1227 | the cells hit by the voxel row are set to 1; the rest are unchanged |
| Reconstructions.Reconstruction.MarkMetal | ct_recon_win.h:1189-1228 | the mask becomes exactly 1 on `Mask` and 0 elsewhere |
| Reconstructions.Reconstruction.RemoveMetal | ct_recon_win.h:1138-1310 | in a new volume: the sum of every projection's contribution after the discarded one, each with its metal cells interpolated away before filtering; one message each with counter 0; no completion; the middle slice on display. A cancel request with projections pending posts nothing and leaves the new, partial volume in place with only voxel column (0, 0) holding the first projection's contribution and the display untouched; with none pending the display is untouched too |
| Reconstructions.Reconstruction.MetalPending | ct_recon_win.h:1179-1294 | the metal loop from a zero volume either accumulates every pending projection, posting a message for each and leaving the middle slice on display, or, on cancel with a projection pending, stops with nothing posted, the display untouched and only the first voxel column backprojected; with nothing pending the display is untouched |
| Reconstructions.Reconstruction.MetalStep | ct_recon_win.h:1179-1294 | one metal round keeps the loop invariant, or stops on cancel in the first round with nothing posted and the display untouched; a round that finds nothing to load leaves the display untouched |
| Reconstructions.Reconstruction.MetalAdvance | ct_recon_win.h:1182-1293 | after a load, the round marks, interpolates, filters, backprojects, shows the middle slice and posts, or on cancel closes the enumeration without posting or touching the display |
| Reconstructions.Reconstruction.MetalLoaded | ct_recon_win.h:1182-1292 | the loaded projection, with its metal cells interpolated away and filtered, is added to the volume and the middle slice copied to the display; it stops, skipping the copy and leaving the display untouched, exactly when a cancel request meets a grid with at least one voxel column (a cancel on an empty grid does not stop it) |
| Reconstructions.Reconstruction.SetMetalThreshold | ct_recon_win.h:487 | sets the threshold and nothing else |
| Reconstructions.Reconstruction.CancelRecon | ct_recon_win.h:492 | sets the cancel flag and nothing else |
| Dicom.StoredValue | ct_recon_win.h:1067 | the stored sample is always below 65536; it is 0 for a non-positive voxel, and `100 * v` truncated toward zero when that is below 65536 |
| Dicom.PixelIndex | ct_recon_win.h:1067 | `i*rows*cols + j*cols + k` lies inside the buffer |
| Dicom.PixelIndexInjective | ct_recon_win.h:1064-1067 | distinct voxels are written to distinct positions |
| Dicom.PixelIndexCovers | ct_recon_win.h:1062-1067 | every position of the buffer is written by some voxel |
| Dicom.PackPixels | ct_recon_win.h:1062-1067 | position (i, j, k) holds the stored value of voxel (slices-1-i, rows-1-j, k) |
| Dicom.PackSlice | ct_recon_win.h:1065-1067 | slice i is written; positions outside its block are unchanged |
| Dicom.PackRow | ct_recon_win.h:1066-1067 | row j of slice i is written; positions outside its block are unchanged |
| Dicom.SliceVector | ct_recon_win.h:1049-1058 | entry i is `i + 1` in 16 bits, and the slice count is the 16-bit word of `slices` |
| Dicom.SliceNumbers | ct_recon_win.h:1051-1052 | up to 65535 slices the vector numbers them 1..slices; slice 65536 is numbered 0 |
| Dicom.Decimal | ct_recon_win.h:738 | `%d` prints digits only, with a leading 0 exactly for 0, which prints as one digit |
| Dicom.DecimalRoundTrip | ct_recon_win.h:738 | reading the printed digits back gives the number |
| Dicom.DecimalLength | ct_recon_win.h:738 | a number below 10^k prints in at most k digits |
| Dicom.LastIndexOf | ct_recon_win.h:741 | `strrchr` returns the last dot, or none |
| Dicom.ComponentsAppend | ct_recon_win.h:741-745 | appending a dot and a dot-free string appends one component, and the appended dot is the last one |
| Dicom.RootValid | ct_recon_win.h:738 | the root has 33 characters and nine valid components |
| Dicom.RunValid | ct_recon_win.h:738 | the three numbers printed as one run form a valid component exactly when the first is not 0 |
| Dicom.FormatUidComponents | ct_recon_win.h:738 | the UID's components are the root's, then the study number, the run and the last digit |
| Dicom.ReplaceSuffixOfFormat | ct_recon_win.h:740-745 | cutting at the last two dots and printing new numbers gives the UID of the same study with those numbers |
| Dicom.SeriesOfSop | ct_recon_win.h:737-745 | the series UID is the SOP UID with its run and last digit drawn anew |
| Dicom.FormatUidValid | ct_recon_win.h:738 | within the bounds the remainders give, the UID is valid (at most 64 characters, no component with a leading zero) exactly when the run's first number is not 0 |
| Dicom.SopUidValid | ct_recon_win.h:738 | the SOP UID is valid exactly when `rand() % 1000` for the run's first number is not 0 |
| Dicom.LeadingZeroUid | ct_recon_win.h:738 | the draws (0, 0, 10, 0, 0) give an invalid SOP UID |
| Dicom.CorrectedUidsValid | ct_recon_win.h:737-745 | with the run's first number drawn from 1..999, both UIDs are valid for every draw, and the series UID still shares the SOP UID's study |

## Left out

- File and directory I/O are left out: `_findfirst`/`_findnext`, DICOM parsing and
  writing, `WriteBin`, the raw-volume load in the `Reconstruction` constructor, and the
  diagnostic dumps in `RemoveMetal` (ct_recon_win.h:1230-1239, whose `WriteBin` call
  writes `pd`, not state the model keeps). The scan directory is a sequence of frames
  (ImageType, angle, samples) and the header is a parameter of the constructor.
- `WriteDicom` outside the pixel buffer, slice vector and UIDs is left out. This covers
  the metadata elements, the time-based fields and the file output. The `HighBit`
  element and its `us_temp` are not modelled.
- Threads, the mutex, and posting window messages are not modelled as such.
  `ReconThread`/`RemoveMetalThread` are left out, including the `WM_RECON_COMPLETE`
  that `RemoveMetalThread` sends after `RemoveMetal`. Messages are a sequence of events.
- Reconstructions.Reconstruction.Backproject: `cancel` is a field that keeps its value
  during a run, because another thread cannot be modelled. The contract covers a flag
  already set when the run starts, which stops it after the first voxel column, and a
  flag never set.
- Reconstructions.Reconstruction.RemoveMetal: the same treatment of `cancel` applies.
- Reconstructions.Reconstruction.CopyDisplay: always copies. The case where
  `WaitForSingleObject` times out after 1000 ms and skips the copy is not modelled.
- `GetBitmap`, the window code of `win_cone_ct.cpp`, destructors and memory release are
  left out. The leak of the previous volume when `RemoveMetal` is cancelled is not
  modelled.
- `fft`, `log`, `sin`, `cos`, `sqrt` and the window formulas are abstract functions, so
  no statement about the analytic response of the filter is made. Floating-point
  rounding, `float` against `double`, NaN and infinity are not modelled: samples are
  reals.
- Reconstructions.Reconstruction.Backproject: requires every projection angle to give a
  table index >= 0. Otherwise the source reads outside the 360-entry tables. It also
  requires every ray's divisions to have non-zero divisors, because a real cannot be
  infinite.
- Projections.Projection.GetYOffset: requires an index >= 0, because a negative index
  reads outside `YOffset`.
- Projections.Projection.GetZOffset: requires an index >= 0, for the same reason.
- Projections.Projection.Interpolate: requires every non-zero mask cell to lie in rows
  2..rows-2. The line's anchor at a-2 and the unbounded run scan read outside `pd` and
  the mask otherwise.
- Reconstructions.Reconstruction.RemoveMetal: requires every metal voxel whose cell
  passes the guard to land on rows 2..rows-3, so that the mask meets `Interpolate`'s
  requirement. The marking guard alone allows rows 1 and rows-1, which gives the
  out-of-bounds reads of `Interpolate`, as `Metal.AxisVoxelMarksRowOne` exhibits.
- Projections.Projection.CreateFilter: requires `trunc(rows*cutoff + 1) >= 0`. A
  cutoff below that writes before the start of `G`.
- Projections.Projection.CreateFilter: requires `rows > 0`. With no detector rows
  the ramp loop divides by zero and writes `G[0]` of an empty kernel
  (ct_recon_win.h:248-250). No well-defined input is excluded by this.
- Reconstructions.Reconstruction.Backproject: requires `slices > 0`. Once a projection
  is loaded on a grid with rows and columns, the display copy reads
  `recon[slices/2]` of an empty volume (ct_recon_win.h:668). The requirement also
  excludes runs with `slices == 0` that the source completes normally: nothing
  pending, or no voxel rows or columns. Such a run would post completion and change
  nothing else.
- Reconstructions.Reconstruction.RemoveMetal: requires `slices > 0` for the same read
  (ct_recon_win.h:1290). It excludes the same well-defined runs with `slices == 0`.
- Reconstructions.Reconstruction.constructor: takes the grid sizes as natural numbers.
  A negative size makes the source's `new FP_VAR**[slices]` (ct_recon_win.h:550) and
  the matching row and column allocations throw, which is not modelled.
- Projections.Projection.constructor: requires at least one file (the source uses an
  unset file name otherwise), 360-entry offset tables, non-zero distances, and frames
  of `rows*cols` samples.
- Dicom.StoredValue: a voxel of 655.36 or more is stored modulo 2^16. Converting such
  a double to `unsigned short` is undefined in C++, and the model picks wrap-around.
- Dicom.SopUid: takes the five `rand()` results as parameters, in the order the format
  consumes them. C++ leaves the evaluation order of the arguments unspecified.
- The `int` index arithmetic of the source (`i*rows*cols`, `rows*cols`) is unbounded in
  the model. Overflow for volumes over 2^31 voxels is not modelled.
- `Projection::WriteBin`, `GetNumProj` and `SetHWND` are left out because they only
  read or pass state through.

## Findings

| source | as written | input that shows it | evidently intended | confidence | as-written member | corrected member |
|---|---|---|---|---|---|---|
| ct_recon_win.h:737-745 | the run `%d%d%d` starts with `rand()%1000`, which can be 0, giving a component such as `0100` with a leading zero that section 9.1 of DICOM PS3.5 forbids | draws (0, 0, 10, 0, 0) give `...342487148.0.0100.0` | a valid UID for every draw, e.g. the run's first number drawn from 1..999 | medium, not executed | Dicom.LeadingZeroUid | Dicom.CorrectedUidsValid |
| ct_recon_win.h:443-449 | the marking guard (ct_recon_win.h:1218-1224) lets a metal voxel mark detector rows 1 and rows-1; `Interpolate` then reads `pd[int_start - 1]`, row -1, for a run starting at row 1, and its run scan `while(interp_map[i][j])` has no bound on `i`, so a run reaching the last row reads past the mask | a metal voxel at the isocentre seen by a 4 x 4 detector marks row 1 | metal marks, and so interpolated runs, only on rows 2..rows-2, where both reads stay inside the detector | high, not executed | Metal.AxisVoxelMarksRowOne | Metal.MaskAdmissible |
