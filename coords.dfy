/** The two point pipelines named distributed_apply_transform_to_coordinates:
    the one of distributed_transform.py buckets points into cells of a voxel
    block size times the spacing and carries payload columns along; the one
    of piecewise_transform.py buckets them into cells of a fixed physical
    partition size and crops each field to the bucket's own bounding box.
    Both map every bucket through the cropped transforms and scatter the
    results back into input order. */
module CoordinateTransform {
  import opened Wrappers
  import opened Axis
  import opened NdIndex
  import opened Arrays
  import opened TransformLocalizer
  import opened CoordinatePartitioner
  import opened MovingBox

  /** apply_transform_to_coordinates for one point: the point, the cropped
      transforms, the spacing argument and the transforms' origin. The
      kernel maps each point on its own. */
  type PointMap<!V> = (seq<int>, seq<Transform<V>>, SpacingArg, seq<int>) -> seq<int>

  /** The kernel returns a point with as many coordinates as it was given. */
  ghost predicate KeepsAxes<V(!new)>(f: PointMap<V>)
  {
    forall x, ts, sp, o :: |f(x, ts, sp, o)| == |x|
  }

  lemma MapLength<V(!new)>(f: PointMap<V>, x: seq<int>, ts: seq<Transform<V>>, sp: SpacingArg, o: seq<int>)
    requires KeepsAxes(f)
    ensures |f(x, ts, sp, o)| == |x|
  {
  }

  /** coordinates[point_indexes]: the rows that `members` lists, in its order. */
  function Take(pts: seq<seq<int>>, members: seq<nat>): (rows: seq<seq<int>>)
    requires forall m :: 0 <= m < |members| ==> members[m] < |pts|
    ensures |rows| == |members| && forall m :: 0 <= m < |members| ==> rows[m] == pts[members[m]]
  {
    seq(|members|, m requires 0 <= m < |members| => pts[members[m]])
  }

  /** The multi-index of the cell of a point that is not below the origin. */
  function CellIndex(x: seq<int>, origin: seq<int>, pitch: seq<nat>): (idx: seq<nat>)
    requires |origin| == |pitch| <= |x| && forall a :: 0 <= a < |pitch| ==> pitch[a] > 0 && origin[a] <= x[a]
    ensures |idx| == |pitch| && forall a :: 0 <= a < |pitch| ==> idx[a] == CellOf(x, origin, pitch)[a]
  {
    seq(|pitch|, a requires 0 <= a < |pitch| => FloorDiv(x[a] - origin[a], pitch[a]))
  }

  /** A point listed by a cell has that cell as its cell index. */
  lemma MemberCell(pts: seq<seq<int>>, origin: seq<int>, pitch: seq<nat>, cell: seq<nat>, x: nat)
    requires |origin| == |pitch| == |cell| && Rows(pts, |pitch|) && forall a :: 0 <= a < |pitch| ==> pitch[a] > 0
    requires x in CellMembers(pts, origin, pitch, cell)
    requires forall a :: 0 <= a < |pitch| ==> origin[a] <= pts[x][a]
    ensures CellIndex(pts[x], origin, pitch) == cell
  {
    CellMembership(pts[x], origin, pitch, cell);
  }

  // ---------------------------------------------------------------------
  // distributed_transform.py

  /** The coordinate columns the distributed pipeline reads; the columns
      after them are payload. */
  const SpatialAxes: nat := 3

  /** phys_blocksize = voxel_blocksize * coords_spacing[::-1]. */
  function Pitch(voxelBs: seq<nat>, spacing: seq<nat>): (p: seq<nat>)
    requires |voxelBs| == |spacing|
    ensures |p| == |voxelBs| && forall a :: 0 <= a < |p| ==> p[a] == voxelBs[a] * spacing[|spacing| - 1 - a]
  {
    seq(|voxelBs|, a requires 0 <= a < |voxelBs| => voxelBs[a] * spacing[|spacing| - 1 - a])
  }

  /** block_slice_coords: the voxel slices [bs*i, bs*i + bs) of cell i. */
  function CellSlices(voxelBs: seq<nat>, idx: seq<nat>): (s: seq<Slice>)
    requires |idx| == |voxelBs|
    ensures |s| == |idx| && forall a :: 0 <= a < |idx| ==> s[a] == Slice(voxelBs[a] * idx[a], voxelBs[a] * idx[a] + voxelBs[a])
  {
    seq(|idx|, a requires 0 <= a < |idx| => Slice(voxelBs[a] * idx[a], voxelBs[a] * idx[a] + voxelBs[a]))
  }

  /** The crop of one transform in _transform_coords: an affine passes
      unchanged; a field is cut to the block's voxel slices (the stops first
      clipped to the field's extent, which selects the same voxels). */
  function CropToBlock<V>(t: Transform<V>, slices: seq<Slice>): (r: Transform<V>)
    requires t.Field? ==> t.field.Valid() && |t.field.shape| == |slices|
    ensures t.Affine? ==> r == t
    ensures t.Field? ==> r == Field(SliceView(t.field, slices))
  {
    if t.Affine? then t
    else
      CoordsFieldCropIsNumpyClip(slices, t.field);
      Field(SliceView(t.field, CoordsFieldCrop(slices, t.field.shape)))
  }

  /** CropToBlock on every transform of the list. */
  function CropAllToBlock<V>(transforms: seq<Transform<V>>, slices: seq<Slice>): (r: seq<Transform<V>>)
    requires FieldsHaveAxes(transforms, |slices|)
    ensures |r| == |transforms| && forall t :: 0 <= t < |r| ==> r[t] == CropToBlock(transforms[t], slices)
  {
    seq(|transforms|, t requires 0 <= t < |transforms| => CropToBlock(transforms[t], slices))
  }

  /** The per-axis crop loop of _transform_coords for one field: each stop
      is clipped to the field's extent on that axis. */
  method FieldCropSlices(slices: seq<Slice>, fieldShape: seq<nat>) returns (crop: seq<Slice>)
    requires |slices| == |fieldShape|
    ensures crop == CoordsFieldCrop(slices, fieldShape)
  {
    crop := [];
    var a := 0;
    while a < |slices|
      invariant 0 <= a <= |slices| && |crop| == a
      invariant forall b :: 0 <= b < a ==> crop[b] == CoordsFieldCrop(slices, fieldShape)[b]
    {
      var start, stop := slices[a].start, slices[a].stop;
      if fieldShape[a] < stop {
        crop := crop + [Slice(start, fieldShape[a])];
      } else {
        crop := crop + [Slice(start, stop)];
      }
      a := a + 1;
    }
  }

  /** One output row of _transform_coords: the first three columns mapped
      through the kernel, the payload columns after them unchanged. */
  function WarpRow<V(!new)>(f: PointMap<V>, row: seq<int>, cropped: seq<Transform<V>>, spacing: seq<nat>, origin: seq<int>): (r: seq<int>)
    requires KeepsAxes(f) && |row| >= SpatialAxes
    ensures |r| == |row|
    ensures r[..SpatialAxes] == f(row[..SpatialAxes], cropped, Single(spacing), origin)
    ensures r[SpatialAxes..] == row[SpatialAxes..]
  {
    MapLength(f, row[..SpatialAxes], cropped, Single(spacing), origin);
    f(row[..SpatialAxes], cropped, Single(spacing), origin) + row[SpatialAxes..]
  }

  /** _transform_coords: crop every field to the block's voxel slices, map
      the rows with the block origin reversed as the transforms' origin,
      keep the payload. */
  method TransformCoords<V(!new)>(f: PointMap<V>, slices: seq<Slice>, origin: seq<int>, rows: seq<seq<int>>,
                                  spacing: seq<nat>, transforms: seq<Transform<V>>)
    returns (warped: seq<seq<int>>)
    requires KeepsAxes(f) && FieldsHaveAxes(transforms, |slices|)
    requires forall k :: 0 <= k < |rows| ==> |rows[k]| >= SpatialAxes
    ensures |warped| == |rows|
    ensures forall k :: 0 <= k < |rows| ==>
      warped[k] == WarpRow(f, rows[k], CropAllToBlock(transforms, slices), spacing, Reverse(origin))
  {
    var cropped: seq<Transform<V>> := [];
    var t := 0;
    while t < |transforms|
      invariant 0 <= t <= |transforms| && |cropped| == t
      invariant forall u :: 0 <= u < t ==> cropped[u] == CropToBlock(transforms[u], slices)
    {
      var transform := transforms[t];
      if transform.Field? {
        var crop := FieldCropSlices(slices, transform.field.shape);
        cropped := cropped + [Field(SliceView(transform.field, crop))];
      } else {
        cropped := cropped + [transform];
      }
      t := t + 1;
    }
    assert cropped == CropAllToBlock(transforms, slices);
    var o := Reverse(origin);
    warped := seq(|rows|, k requires 0 <= k < |rows| => WarpRow(f, rows[k], cropped, spacing, o));
  }

  /** The arguments of the distributed point pipeline: the points (three
      coordinate columns, then payload), the transforms, the voxel block size,
      the spacing and the kernel. */
  datatype PointsJob<!V(!new)> = PointsJob(pts: seq<seq<int>>, transforms: seq<Transform<V>>, voxelBs: seq<nat>,
                                     spacing: seq<nat>, f: PointMap<V>)
  {
    ghost predicate Valid()
    {
      |voxelBs| == SpatialAxes == |spacing| &&
      (forall a :: 0 <= a < SpatialAxes ==> voxelBs[a] > 0 && spacing[a] > 0) &&
      Rows(pts, SpatialAxes) && FieldsHaveAxes(transforms, SpatialAxes) && KeepsAxes(f)
    }
  }

  /** Every cell of the distributed grid has a positive pitch. */
  lemma PitchPositive(voxelBs: seq<nat>, spacing: seq<nat>)
    requires |voxelBs| == |spacing| && forall a :: 0 <= a < |spacing| ==> voxelBs[a] > 0 && spacing[a] > 0
    ensures forall a :: 0 <= a < |spacing| ==> Pitch(voxelBs, spacing)[a] > 0
  {
    forall a | 0 <= a < |spacing|
      ensures voxelBs[a] * spacing[|spacing| - 1 - a] > 0
    {
      MulMonotone(voxelBs[a], 1, spacing[|spacing| - 1 - a]);
    }
  }

  /** Row j of `rows` is the wanted row of input point idx[j]. */
  predicate Paired(idx: seq<nat>, rows: seq<seq<int>>, want: seq<seq<int>>)
  {
    |rows| == |idx| && forall j :: 0 <= j < |idx| ==> idx[j] < |want| && rows[j] == want[idx[j]]
  }

  /** Appending the rows of one more partition keeps rows and indices
      paired. */
  lemma AppendPaired(idx: seq<nat>, rows: seq<seq<int>>, more: seq<nat>, warped: seq<seq<int>>, want: seq<seq<int>>)
    requires Paired(idx, rows, want) && Paired(more, warped, want)
    ensures Paired(idx + more, rows + warped, want)
  {
    forall j | 0 <= j < |idx + more|
      ensures (idx + more)[j] < |want| && (rows + warped)[j] == want[(idx + more)[j]]
    {
      if j >= |idx| {
        assert (idx + more)[j] == more[j - |idx|] && (rows + warped)[j] == warped[j - |idx|];
      }
    }
  }

  /** What the distributed pipeline computes for input point i: the point
      mapped through the transforms cropped to its own cell's voxel slices,
      with its cell's lower corner (reversed) as origin, payload unchanged. */
  function DistributedWarped<V(!new)>(job: PointsJob<V>, i: nat): (r: seq<int>)
    requires job.Valid() && i < |job.pts|
    ensures |r| == |job.pts[i]|
  {
    PitchPositive(job.voxelBs, job.spacing);
    var pitch := Pitch(job.voxelBs, job.spacing);
    var lo := Lowest(job.pts, SpatialAxes);
    var idx := CellIndex(job.pts[i], lo, pitch);
    WarpRow(job.f, job.pts[i], CropAllToBlock(job.transforms, CellSlices(job.voxelBs, idx)),
            job.spacing, Reverse(CellLower(lo, pitch, idx)))
  }

  /** DistributedWarped of every input point, in input order. */
  function DistributedResults<V(!new)>(job: PointsJob<V>): (r: seq<seq<int>>)
    requires job.Valid()
    ensures |r| == |job.pts| && forall i :: 0 <= i < |job.pts| ==> r[i] == DistributedWarped(job, i)
  {
    seq(|job.pts|, i requires 0 <= i < |job.pts| => DistributedWarped(job, i))
  }

  /** The block of one kept cell maps each of its points as
      DistributedWarped says. */
  lemma DistributedCellStep<V(!new)>(job: PointsJob<V>, cell: seq<nat>, members: seq<nat>, warped: seq<seq<int>>)
    requires job.Valid() && |job.pts| > 0 && |cell| == SpatialAxes
    requires members == CellMembers(job.pts, Lowest(job.pts, SpatialAxes), Pitch(job.voxelBs, job.spacing), cell)
    requires |warped| == |members|
    requires forall m :: 0 <= m < |members| ==>
      warped[m] == WarpRow(job.f, job.pts[members[m]], CropAllToBlock(job.transforms, CellSlices(job.voxelBs, cell)),
                           job.spacing, Reverse(CellLower(Lowest(job.pts, SpatialAxes), Pitch(job.voxelBs, job.spacing), cell)))
    ensures Paired(members, warped, DistributedResults(job))
  {
    PitchPositive(job.voxelBs, job.spacing);
    forall m | 0 <= m < |members|
      ensures members[m] < |job.pts| && warped[m] == DistributedWarped(job, members[m])
    {
      assert members[m] in members;
      MemberCell(job.pts, Lowest(job.pts, SpatialAxes), Pitch(job.voxelBs, job.spacing), cell, members[m]);
    }
  }

  /** The map over the kept cells: each cell's rows go through
      _transform_coords, and the results are concatenated in cell order. Row j
      of the result is DistributedWarped of the j-th concatenated index. */
  method TransformCells<V(!new)>(job: PointsJob<V>, cells: seq<seq<nat>>) returns (permuted: seq<seq<int>>)
    requires job.Valid() && |job.pts| > 0 && Indexes(cells, SpatialAxes)
    ensures Paired(Concat(MembersOfCells(job.pts, Lowest(job.pts, SpatialAxes), Pitch(job.voxelBs, job.spacing), cells)),
                   permuted, DistributedResults(job))
  {
    ghost var members := MembersOfCells(job.pts, Lowest(job.pts, SpatialAxes), Pitch(job.voxelBs, job.spacing), cells);
    permuted := [];
    ghost var done: seq<nat> := [];
    var k := 0;
    while k < |cells|
      invariant 0 <= k <= |cells| && done == Concat(members[..k]) && Paired(done, permuted, DistributedResults(job))
    {
      var warped := TransformCell(job, cells[k]);
      AppendPaired(done, permuted, members[k], warped, DistributedResults(job));
      ConcatPrefix(members, k);
      done, permuted := done + members[k], permuted + warped;
      k := k + 1;
    }
    assert members[..k] == members;
  }

  /** One call of _transform_coords, for the kept cell `cell`: its rows,
      its voxel slices and its lower corner. */
  method TransformCell<V(!new)>(job: PointsJob<V>, cell: seq<nat>) returns (warped: seq<seq<int>>)
    requires job.Valid() && |job.pts| > 0 && |cell| == SpatialAxes
    ensures Paired(CellMembers(job.pts, Lowest(job.pts, SpatialAxes), Pitch(job.voxelBs, job.spacing), cell),
                   warped, DistributedResults(job))
  {
    var lo, pitch := Lowest(job.pts, SpatialAxes), Pitch(job.voxelBs, job.spacing);
    var members := CellMembers(job.pts, lo, pitch, cell);
    var slices := CellSlices(job.voxelBs, cell);
    var lower := CellLower(lo, pitch, cell);
    var rows := Take(job.pts, members);
    warped := TransformCoords(job.f, slices, lower, rows, job.spacing, job.transforms);
    DistributedCellStep(job, cell, members, warped);
  }

  /** distributed_apply_transform_to_coordinates. An empty point set fails
      in np.min; otherwise every point lands in exactly one cell of the grid
      ceil(extent / pitch + 1), and row i of the result is input point i
      mapped through the transforms cropped to its cell, its payload
      unchanged: the result has the input's rows, in the input's order. */
  method DistributedTransformCoordinates<V(!new)>(job: PointsJob<V>) returns (r: Result<seq<seq<int>>>)
    requires job.Valid()
    ensures |job.pts| == 0 ==> r.Failure?
    ensures |job.pts| > 0 ==> r == Success(DistributedResults(job))
  {
    if |job.pts| == 0 {
      return Failure("ValueError: zero-size array to reduction operation minimum which has no identity");
    }
    var indices, permuted := BucketAndMap(job);
    r := Scatter(indices, permuted);
    ScatterRestoresOrder(indices, permuted, r, DistributedResults(job));
  }

  /** The bucketing and the map of the distributed pipeline: the kept cells
      of the grid ceil(extent / pitch + 1), their concatenated point indices
      (a permutation of the input rows), and the mapped rows in that order. */
  method BucketAndMap<V(!new)>(job: PointsJob<V>) returns (indices: seq<nat>, permuted: seq<seq<int>>)
    requires job.Valid() && |job.pts| > 0
    ensures NoDup(indices) && (forall t: nat :: t in indices <==> t < |job.pts|) && |indices| == |job.pts|
    ensures Paired(indices, permuted, DistributedResults(job))
  {
    PitchPositive(job.voxelBs, job.spacing);
    var pitch := Pitch(job.voxelBs, job.spacing);
    var lo, hi := Lowest(job.pts, SpatialAxes), Highest(job.pts, SpatialAxes);
    var nblocks := DistributedGrid(lo, hi, pitch);
    var cells, members := PartitionPoints(job.pts, lo, pitch, nblocks);
    indices := Concat(members);
    permuted := TransformCells(job, cells);
    DistributedIndicesArePermutation(job, nblocks, cells, indices);
  }

  /** In the distributed grid the concatenated indices of the kept cells
      are a permutation of the input rows. */
  lemma DistributedIndicesArePermutation<V(!new)>(job: PointsJob<V>, nblocks: seq<nat>, cells: seq<seq<nat>>, indices: seq<nat>)
    requires job.Valid() && |job.pts| > 0
    requires PitchPositiveAll(job)
    requires nblocks == DistributedGrid(Lowest(job.pts, SpatialAxes), Highest(job.pts, SpatialAxes), Pitch(job.voxelBs, job.spacing))
    requires cells == KeptCells(job.pts, Lowest(job.pts, SpatialAxes), Pitch(job.voxelBs, job.spacing), Enumerate(nblocks))
    requires Indexes(cells, SpatialAxes)
    requires indices == Concat(MembersOfCells(job.pts, Lowest(job.pts, SpatialAxes), Pitch(job.voxelBs, job.spacing), cells))
    ensures NoDup(indices) && (forall t: nat :: t in indices <==> t < |job.pts|) && |indices| == |job.pts|
  {
    var lo, pitch := Lowest(job.pts, SpatialAxes), Pitch(job.voxelBs, job.spacing);
    AllInDistributedGrid(job, nblocks);
    EnumerateIsGrid(nblocks);
    PartitionIsPermutation(job.pts, lo, pitch, nblocks, Enumerate(nblocks));
  }

  /** Every point's cell is in the distributed grid. */
  lemma AllInDistributedGrid<V(!new)>(job: PointsJob<V>, nblocks: seq<nat>)
    requires job.Valid() && |job.pts| > 0 && PitchPositiveAll(job)
    requires nblocks == DistributedGrid(Lowest(job.pts, SpatialAxes), Highest(job.pts, SpatialAxes), Pitch(job.voxelBs, job.spacing))
    ensures forall t :: 0 <= t < |job.pts| ==> InGrid(CellOf(job.pts[t], Lowest(job.pts, SpatialAxes), Pitch(job.voxelBs, job.spacing)), nblocks)
  {
    var lo, hi, pitch := Lowest(job.pts, SpatialAxes), Highest(job.pts, SpatialAxes), Pitch(job.voxelBs, job.spacing);
    forall t | 0 <= t < |job.pts|
      ensures InGrid(CellOf(job.pts[t], lo, pitch), nblocks)
    {
      DistributedGridCovers(job.pts[t], lo, hi, pitch);
    }
  }

  /** The pitch of the job is positive on every axis. */
  predicate PitchPositiveAll<V(!new)>(job: PointsJob<V>)
    requires |job.voxelBs| == |job.spacing|
  {
    forall a :: 0 <= a < |job.spacing| ==> Pitch(job.voxelBs, job.spacing)[a] > 0
  }

  // ---------------------------------------------------------------------
  // piecewise_transform.py

  /** d positive voxel spacings. */
  predicate PositiveSpacing(s: seq<nat>, d: nat)
  {
    |s| == d && forall a :: 0 <= a < d ==> s[a] > 0
  }

  /** Every spacing the transform_spacing argument holds has d positive
      entries. */
  predicate SpacingHasAxes(arg: SpacingArg, d: nat)
  {
    (arg.Single? ==> PositiveSpacing(arg.spacing, d)) &&
    (arg.PerTransform? ==> forall t :: 0 <= t < |arg.spacings| ==> PositiveSpacing(arg.spacings[t], d))
  }

  /** The arguments of the piecewise point pipeline: N points with d
      coordinates, the transforms, the partition size, the transform_spacing
      argument and the kernel. */
  datatype PartitionJob<!V(!new)> = PartitionJob(pts: seq<seq<int>>, d: nat, transforms: seq<Transform<V>>,
                                                 size: nat, spacing: SpacingArg, f: PointMap<V>)
  {
    /** Every point has exactly d coordinates: np.min and np.max run over
        every column of the coordinate array. */
    predicate Valid()
    {
      size > 0 && Rows(pts, d) && (forall t :: 0 <= t < |pts| ==> |pts[t]| == d) &&
      FieldsHaveAxes(transforms, d) && SpacingHasAxes(spacing, d)
    }
  }

  /** The spacing transform_partition divides by for transform number t:
      without a spacing the division raises, a tuple is indexed by t. */
  function FieldSpacing(arg: SpacingArg, t: nat): (r: Result<seq<nat>>)
  {
    match arg
    case Unset => Failure("TypeError: unsupported operand type(s) for /: 'float' and 'NoneType'")
    case Single(s) => Success(s)
    case PerTransform(l) => if t < |l| then Success(l[t]) else Failure("IndexError: tuple index out of range")
  }

  /** Every spacing the lookup yields has d positive entries. */
  lemma FieldSpacingHasAxes(arg: SpacingArg, d: nat)
    requires SpacingHasAxes(arg, d)
    ensures forall t: nat :: FieldSpacing(arg, t).Success? ==> PositiveSpacing(FieldSpacing(arg, t).value, d)
  {
  }

  /** Some field transform has no spacing to divide by. */
  predicate SpacingFails<V>(transforms: seq<Transform<V>>, arg: SpacingArg)
  {
    exists t :: 0 <= t < |transforms| && transforms[t].Field? && FieldSpacing(arg, t).Failure?
  }

  /** The spacing lookup fails exactly when some field is given without any
      spacing, or sits past the end of a tuple of spacings; a tuple with one
      spacing per transform, as documented, never fails, and neither does a
      list of affines alone. */
  lemma SpacingFailsWhen<V>(transforms: seq<Transform<V>>, arg: SpacingArg)
    ensures SpacingFails(transforms, arg) <==>
      (arg.Unset? && exists t :: 0 <= t < |transforms| && transforms[t].Field?) ||
      (arg.PerTransform? && exists t :: |arg.spacings| <= t < |transforms| && transforms[t].Field?)
    ensures arg.PerTransform? && |arg.spacings| == |transforms| ==> !SpacingFails(transforms, arg)
    ensures (forall t :: 0 <= t < |transforms| ==> transforms[t].Affine?) ==> !SpacingFails(transforms, arg)
  {
    if SpacingFails(transforms, arg) {
      var t :| 0 <= t < |transforms| && transforms[t].Field? && FieldSpacing(arg, t).Failure?;
    }
  }

  /** One transform of transform_partition: a field is cut to the voxels
      PartitionFieldCrop names for the partition's box [a, b] and its own
      spacing (numpy clipping the stop); an affine passes unchanged. */
  function CropToPartition<V>(t: Transform<V>, spacing: Result<seq<nat>>, a: seq<int>, b: seq<int>): (r: Transform<V>)
    requires |a| == |b|
    requires t.Field? ==> t.field.Valid() && |t.field.shape| == |a| && spacing.Success? && PositiveSpacing(spacing.value, |a|)
    ensures t.Affine? ==> r == t
    ensures t.Field? ==> r == Field(SliceView(t.field, PartitionFieldCrop(a, b, spacing.value, t.field.shape)))
  {
    if t.Affine? then t else Field(SliceView(t.field, PartitionFieldCrop(a, b, spacing.value, t.field.shape)))
  }

  /** When the field holds every voxel from floor(a / s) to ceil(b / s), the
      cropped field is exactly those voxels: the crop keeps all the voxels
      around the partition's points and no others. */
  lemma PartitionCropWindow<V>(t: Transform<V>, s: seq<nat>, a: seq<int>, b: seq<int>)
    requires |a| == |b| && t.Field? && t.field.Valid() && |t.field.shape| == |a| && PositiveSpacing(s, |a|)
    requires forall k :: 0 <= k < |a| ==> 0 <= a[k] <= b[k] && CeilDiv(b[k], s[k]) < t.field.shape[k]
    ensures var r := CropToPartition(t, Success(s), a, b).field;
      forall k :: 0 <= k < |a| ==>
        r.origin[k] == t.field.origin[k] + FloorDiv(a[k], s[k]) &&
        r.origin[k] + r.shape[k] == t.field.origin[k] + CeilDiv(b[k], s[k]) + 1
  {
    var c := PartitionFieldCrop(a, b, s, t.field.shape);
    forall k | 0 <= k < |a|
      ensures ClipSlice(c[k], t.field.shape[k]) == Slice(FloorDiv(a[k], s[k]), CeilDiv(b[k], s[k]) + 1)
    {
      FloorBelowCeil(a[k], b[k], s[k]);
    }
  }

  /** A partition whose minimum lies below the field's first voxel gives a
      negative crop start, which numpy counts from the end of the axis: the
      crop then starts at n + floor(a / s), and it is empty whenever the
      partition's stop ceil(b / s) + 1 is a voxel index that does not reach
      past that start, even though the partition's points lie over voxels
      0 .. ceil(b / s) of the field. */
  lemma PartitionCropNegativeStart<V>(t: Transform<V>, s: seq<nat>, a: seq<int>, b: seq<int>, k: int)
    requires |a| == |b| && t.Field? && t.field.Valid() && |t.field.shape| == |a| && PositiveSpacing(s, |a|)
    requires 0 <= k < |a| && a[k] < 0
    ensures var r := CropToPartition(t, Success(s), a, b).field;
      var n := t.field.shape[k] as int;
      var from := n + FloorDiv(a[k], s[k]);
      r.origin[k] == t.field.origin[k] + Max(0, from) &&
      (0 <= CeilDiv(b[k], s[k]) + 1 <= from ==> r.shape[k] == 0)
  {
    assert FloorDiv(a[k], s[k]) < 0;
  }

  /** The smallest case: a 10-voxel axis with unit spacing and a partition
      whose points run from -1 to 3 crops the field to nothing on that
      axis, although voxels 0 .. 3 lie under the partition. */
  lemma NegativeMinimumEmptiesCrop<V>(data: seq<int> -> V)
    ensures var t := Field(View(data, [0], [10]));
      CropToPartition(t, Success([1]), [-1], [3]).field.shape == [0]
  {
    var t := Field(View(data, [0], [10]));
    PartitionCropNegativeStart(t, [1], [-1], [3], 0);
    assert FloorDiv(-1, 1) == -1 && CeilDiv(3, 1) == 3;
  }

  /** The transforms as transform_partition crops them for the box [a, b]. */
  function PartitionCrops<V>(transforms: seq<Transform<V>>, arg: SpacingArg, a: seq<int>, b: seq<int>): (r: seq<Transform<V>>)
    requires |a| == |b| && FieldsHaveAxes(transforms, |a|) && SpacingHasAxes(arg, |a|) && !SpacingFails(transforms, arg)
    ensures |r| == |transforms|
    ensures forall t :: 0 <= t < |r| ==> r[t] == CropToPartition(transforms[t], FieldSpacing(arg, t), a, b)
  {
    seq(|transforms|, t requires 0 <= t < |transforms| => CropToPartition(transforms[t], FieldSpacing(arg, t), a, b))
  }

  /** The crop loop of transform_partition: it fails at the first field
      without a spacing, and otherwise yields PartitionCrops. */
  method CropPartitionTransforms<V>(transforms: seq<Transform<V>>, arg: SpacingArg, a: seq<int>, b: seq<int>)
    returns (r: Result<seq<Transform<V>>>)
    requires |a| == |b| && FieldsHaveAxes(transforms, |a|) && SpacingHasAxes(arg, |a|)
    ensures r.Failure? <==> SpacingFails(transforms, arg)
    ensures r.Success? ==> !SpacingFails(transforms, arg) && r.value == PartitionCrops(transforms, arg, a, b)
  {
    FieldSpacingHasAxes(arg, |a|);
    var cropped: seq<Transform<V>> := [];
    var t := 0;
    while t < |transforms|
      invariant 0 <= t <= |transforms| && |cropped| == t
      invariant forall u :: 0 <= u < t ==>
        !(transforms[u].Field? && FieldSpacing(arg, u).Failure?) &&
        cropped[u] == CropToPartition(transforms[u], FieldSpacing(arg, u), a, b)
    {
      var crop := CropTransform(transforms[t], arg, t, a, b);
      if crop.Failure? {
        assert transforms[t].Field? && FieldSpacing(arg, t).Failure?;
        return Failure(crop.error);
      }
      cropped := cropped + [crop.value];
      t := t + 1;
    }
    assert !SpacingFails(transforms, arg);
    r := Success(cropped);
  }

  /** One step of the crop loop: transform number t cropped to the box
      [a, b], or the failed spacing lookup of a field. */
  method CropTransform<V>(transform: Transform<V>, arg: SpacingArg, t: nat, a: seq<int>, b: seq<int>)
    returns (r: Result<Transform<V>>)
    requires |a| == |b| && (transform.Field? ==> transform.field.Valid() && |transform.field.shape| == |a|)
    requires FieldSpacing(arg, t).Success? ==> PositiveSpacing(FieldSpacing(arg, t).value, |a|)
    ensures r.Failure? <==> transform.Field? && FieldSpacing(arg, t).Failure?
    ensures r.Success? ==> r.value == CropToPartition(transform, FieldSpacing(arg, t), a, b)
  {
    if transform.Field? {
      var spacing := FieldSpacing(arg, t);
      if spacing.Failure? {
        return Failure(spacing.error);
      }
      var crop := PartitionFieldCrop(a, b, spacing.value, transform.field.shape);
      r := Success(Field(SliceView(transform.field, crop)));
    } else {
      r := Success(transform);
    }
  }

  /** What transform_partition computes for point x of the partition with
      rows `rows`: x mapped through the transforms cropped to the rows'
      bounding box, whose lower corner is the transforms' origin. */
  function PartitionWarp<V(!new)>(job: PartitionJob<V>, rows: seq<seq<int>>, x: seq<int>): seq<int>
    requires job.Valid() && !SpacingFails(job.transforms, job.spacing) && |rows| > 0 && Rows(rows, job.d)
  {
    var a := Lowest(rows, job.d);
    job.f(x, PartitionCrops(job.transforms, job.spacing, a, Highest(rows, job.d)), job.spacing, a)
  }

  /** transform_partition: the box of the partition's own rows, the
      transforms cropped to it, and every row mapped. */
  method TransformPartition<V(!new)>(job: PartitionJob<V>, rows: seq<seq<int>>) returns (r: Result<seq<seq<int>>>)
    requires job.Valid() && |rows| > 0 && Rows(rows, job.d)
    ensures r.Failure? <==> SpacingFails(job.transforms, job.spacing)
    ensures r.Success? ==> !SpacingFails(job.transforms, job.spacing) && |r.value| == |rows|
    ensures r.Success? ==> forall m :: 0 <= m < |rows| ==> r.value[m] == PartitionWarp(job, rows, rows[m])
  {
    var a, b := Lowest(rows, job.d), Highest(rows, job.d);
    var cropped := CropPartitionTransforms(job.transforms, job.spacing, a, b);
    if cropped.Failure? {
      return Failure(cropped.error);
    }
    r := Success(seq(|rows|, m requires 0 <= m < |rows| => job.f(rows[m], cropped.value, job.spacing, a)));
  }

  /** The partition pitch: partition_size on every axis. */
  function PartitionPitch<V(!new)>(job: PartitionJob<V>): (p: seq<nat>)
    requires job.Valid()
    ensures |p| == job.d && forall a :: 0 <= a < job.d ==> p[a] == job.size > 0
  {
    Repeat(job.size, job.d)
  }

  /** What the piecewise pipeline computes for input point i: the point
      mapped by transform_partition for the partition its cell holds. */
  function PiecewiseWarped<V(!new)>(job: PartitionJob<V>, i: nat): seq<int>
    requires job.Valid() && !SpacingFails(job.transforms, job.spacing) && i < |job.pts|
  {
    var lo, pitch := Lowest(job.pts, job.d), PartitionPitch(job);
    var cell := CellIndex(job.pts[i], lo, pitch);
    CellMembership(job.pts[i], lo, pitch, cell);
    var members := CellMembers(job.pts, lo, pitch, cell);
    assert i in members;
    PartitionWarp(job, Take(job.pts, members), job.pts[i])
  }

  /** PiecewiseWarped of every input point, in input order. */
  function PiecewiseResults<V(!new)>(job: PartitionJob<V>): (r: seq<seq<int>>)
    requires job.Valid() && !SpacingFails(job.transforms, job.spacing)
    ensures |r| == |job.pts| && forall i :: 0 <= i < |job.pts| ==> r[i] == PiecewiseWarped(job, i)
  {
    seq(|job.pts|, i requires 0 <= i < |job.pts| => PiecewiseWarped(job, i))
  }

  /** No point sits on the far boundary of the grid ceil(extent / size):
      on every axis each point lies below lo + size * ceil(extent / size). */
  predicate Covered<V(!new)>(job: PartitionJob<V>)
    requires job.Valid() && |job.pts| > 0
  {
    var lo, hi, pitch := Lowest(job.pts, job.d), Highest(job.pts, job.d), PartitionPitch(job);
    forall t :: 0 <= t < |job.pts| ==> BelowGridEnd(job.pts[t], lo, hi, pitch)
  }

  /** The partition of one kept cell maps each of its points as
      PiecewiseWarped says. */
  lemma PiecewiseCellStep<V(!new)>(job: PartitionJob<V>, cell: seq<nat>, members: seq<nat>, warped: seq<seq<int>>)
    requires job.Valid() && !SpacingFails(job.transforms, job.spacing) && |job.pts| > 0 && |cell| == job.d
    requires members == CellMembers(job.pts, Lowest(job.pts, job.d), PartitionPitch(job), cell) && |members| > 0
    requires |warped| == |members|
    requires forall m :: 0 <= m < |members| ==> warped[m] == PartitionWarp(job, Take(job.pts, members), job.pts[members[m]])
    ensures Paired(members, warped, PiecewiseResults(job))
  {
    forall m | 0 <= m < |members|
      ensures members[m] < |job.pts| && warped[m] == PiecewiseWarped(job, members[m])
    {
      assert members[m] in members;
      MemberCell(job.pts, Lowest(job.pts, job.d), PartitionPitch(job), cell, members[m]);
    }
  }

  /** transform_partition on the points of one kept cell: the cell's rows
      mapped by the partition, paired with their input indices. */
  method TransformCellPartition<V(!new)>(job: PartitionJob<V>, cell: seq<nat>) returns (r: Result<seq<seq<int>>>)
    requires job.Valid() && |job.pts| > 0 && |cell| == job.d
    requires Occupied(job.pts, Lowest(job.pts, job.d), PartitionPitch(job), cell)
    ensures r.Failure? <==> SpacingFails(job.transforms, job.spacing)
    ensures r.Success? ==>
      Paired(CellMembers(job.pts, Lowest(job.pts, job.d), PartitionPitch(job), cell), r.value, PiecewiseResults(job))
  {
    var part := CellMembers(job.pts, Lowest(job.pts, job.d), PartitionPitch(job), cell);
    var rows := Take(job.pts, part);
    r := TransformPartition(job, rows);
    if r.Success? {
      PiecewiseCellStep(job, cell, part, r.value);
    }
  }

  /** The map over the kept partitions: transform_partition on each, the
      results concatenated in partition order. */
  method TransformPartitions<V(!new)>(job: PartitionJob<V>, cells: seq<seq<nat>>) returns (r: Result<seq<seq<int>>>)
    requires job.Valid() && |job.pts| > 0 && Indexes(cells, job.d)
    requires forall k :: 0 <= k < |cells| ==> Occupied(job.pts, Lowest(job.pts, job.d), PartitionPitch(job), cells[k])
    ensures r.Failure? <==> |cells| > 0 && SpacingFails(job.transforms, job.spacing)
    ensures r.Success? && !SpacingFails(job.transforms, job.spacing) ==>
      Paired(Concat(MembersOfCells(job.pts, Lowest(job.pts, job.d), PartitionPitch(job), cells)), r.value, PiecewiseResults(job))
  {
    var lo, pitch := Lowest(job.pts, job.d), PartitionPitch(job);
    var permuted: seq<seq<int>> := [];
    ghost var members := MembersOfCells(job.pts, lo, pitch, cells);
    ghost var done: seq<nat> := [];
    var k := 0;
    while k < |cells|
      invariant 0 <= k <= |cells| && done == Concat(members[..k])
      invariant k > 0 ==> !SpacingFails(job.transforms, job.spacing)
      invariant !SpacingFails(job.transforms, job.spacing) ==> Paired(done, permuted, PiecewiseResults(job))
    {
      var warped := TransformCellPartition(job, cells[k]);
      if warped.Failure? {
        return Failure(warped.error);
      }
      AppendPaired(done, permuted, members[k], warped.value, PiecewiseResults(job));
      ConcatPrefix(members, k);
      done, permuted := done + members[k], permuted + warped.value;
      k := k + 1;
    }
    assert members[..k] == members;
    r := Success(permuted);
  }

  /** The concatenated indices of the kept partitions list no point twice,
      and only input points. */
  lemma PiecewiseIndicesDistinct<V(!new)>(job: PartitionJob<V>, nblocks: seq<nat>, cells: seq<seq<nat>>, indices: seq<nat>)
    requires job.Valid() && |job.pts| > 0
    requires nblocks == PiecewiseGrid(Lowest(job.pts, job.d), Highest(job.pts, job.d), PartitionPitch(job))
    requires cells == KeptCells(job.pts, Lowest(job.pts, job.d), PartitionPitch(job), Enumerate(nblocks))
    requires indices == Concat(MembersOfCells(job.pts, Lowest(job.pts, job.d), PartitionPitch(job), cells))
    ensures NoDup(indices) && forall t: nat :: t in indices ==> t < |job.pts|
  {
    var lo, pitch := Lowest(job.pts, job.d), PartitionPitch(job);
    EnumerateIsGrid(nblocks);
    KeptMembersDisjoint(job.pts, lo, pitch, Enumerate(nblocks));
    ConcatNoDup(MembersOfCells(job.pts, lo, pitch, cells));
    forall t: nat | t in indices
      ensures t < |job.pts|
    {
      KeptMembersInGrid(job.pts, lo, pitch, nblocks, Enumerate(nblocks), t);
    }
  }

  /** When every point is covered, the concatenated indices are a
      permutation of the input rows. */
  lemma PiecewiseIndicesCovered<V(!new)>(job: PartitionJob<V>, nblocks: seq<nat>, cells: seq<seq<nat>>, indices: seq<nat>)
    requires job.Valid() && |job.pts| > 0
    requires nblocks == PiecewiseGrid(Lowest(job.pts, job.d), Highest(job.pts, job.d), PartitionPitch(job))
    requires cells == KeptCells(job.pts, Lowest(job.pts, job.d), PartitionPitch(job), Enumerate(nblocks))
    requires indices == Concat(MembersOfCells(job.pts, Lowest(job.pts, job.d), PartitionPitch(job), cells))
    requires Covered(job)
    ensures (forall t: nat :: t in indices <==> t < |job.pts|) && |indices| == |job.pts|
  {
    var lo, pitch := Lowest(job.pts, job.d), PartitionPitch(job);
    EnumerateIsGrid(nblocks);
    CoveredInGrid(job);
    PartitionIsPermutation(job.pts, lo, pitch, nblocks, Enumerate(nblocks));
  }

  /** Every covered point's cell is in the piecewise grid. */
  lemma CoveredInGrid<V(!new)>(job: PartitionJob<V>)
    requires job.Valid() && |job.pts| > 0 && Covered(job)
    ensures var lo, pitch := Lowest(job.pts, job.d), PartitionPitch(job);
      forall t :: 0 <= t < |job.pts| ==> InGrid(CellOf(job.pts[t], lo, pitch), PiecewiseGrid(lo, Highest(job.pts, job.d), pitch))
  {
    var lo, hi, pitch := Lowest(job.pts, job.d), Highest(job.pts, job.d), PartitionPitch(job);
    forall t | 0 <= t < |job.pts|
      ensures InGrid(CellOf(job.pts[t], lo, pitch), PiecewiseGrid(lo, hi, pitch))
    {
      PiecewiseGridCovers(job.pts[t], lo, hi, pitch);
    }
  }

  /** Without cover some point's cell is outside the piecewise grid. */
  lemma LostPoint<V(!new)>(job: PartitionJob<V>) returns (t: nat)
    requires job.Valid() && |job.pts| > 0 && !Covered(job)
    ensures t < |job.pts|
    ensures var lo, pitch := Lowest(job.pts, job.d), PartitionPitch(job);
      !InGrid(CellOf(job.pts[t], lo, pitch), PiecewiseGrid(lo, Highest(job.pts, job.d), pitch))
  {
    var lo, hi, pitch := Lowest(job.pts, job.d), Highest(job.pts, job.d), PartitionPitch(job);
    t :| 0 <= t < |job.pts| && !BelowGridEnd(job.pts[t], lo, hi, pitch);
    PiecewiseGridCovers(job.pts[t], lo, hi, pitch);
  }

  /** Otherwise a point on the far boundary is in no partition, and fewer
      than N indices remain. */
  lemma PiecewiseIndicesLost<V(!new)>(job: PartitionJob<V>, nblocks: seq<nat>, cells: seq<seq<nat>>, indices: seq<nat>)
    requires job.Valid() && |job.pts| > 0
    requires nblocks == PiecewiseGrid(Lowest(job.pts, job.d), Highest(job.pts, job.d), PartitionPitch(job))
    requires cells == KeptCells(job.pts, Lowest(job.pts, job.d), PartitionPitch(job), Enumerate(nblocks))
    requires indices == Concat(MembersOfCells(job.pts, Lowest(job.pts, job.d), PartitionPitch(job), cells))
    requires !Covered(job)
    ensures |indices| < |job.pts|
  {
    PiecewiseIndicesDistinct(job, nblocks, cells, indices);
    var t := UnlistedPoint(job, nblocks, cells, indices);
    NoDupBelow(indices, |job.pts|);
  }

  /** The lost point is not among the concatenated indices. */
  lemma UnlistedPoint<V(!new)>(job: PartitionJob<V>, nblocks: seq<nat>, cells: seq<seq<nat>>, indices: seq<nat>)
    returns (t: nat)
    requires job.Valid() && |job.pts| > 0
    requires nblocks == PiecewiseGrid(Lowest(job.pts, job.d), Highest(job.pts, job.d), PartitionPitch(job))
    requires cells == KeptCells(job.pts, Lowest(job.pts, job.d), PartitionPitch(job), Enumerate(nblocks))
    requires indices == Concat(MembersOfCells(job.pts, Lowest(job.pts, job.d), PartitionPitch(job), cells))
    requires !Covered(job)
    ensures t < |job.pts| && t !in indices
  {
    var lo, pitch := Lowest(job.pts, job.d), PartitionPitch(job);
    EnumerateIsGrid(nblocks);
    t := LostPoint(job);
    if t in indices {
      KeptMembersInGrid(job.pts, lo, pitch, nblocks, Enumerate(nblocks), t);
    }
  }

  /** piecewise_transform's distributed_apply_transform_to_coordinates. An
      empty point set fails in np.min, and a field without a spacing fails
      in every partition. Otherwise, when every point is covered, row i of
      the result is point i mapped by the partition that holds it, in input
      order. A point on the far boundary of an axis whose extent is a
      multiple of the partition size belongs to no partition: then the call
      fails, or returns fewer rows than it was given. */
  method PiecewiseTransformCoordinates<V(!new)>(job: PartitionJob<V>) returns (r: Result<seq<seq<int>>>)
    requires job.Valid()
    ensures |job.pts| == 0 ==> r.Failure?
    ensures SpacingFails(job.transforms, job.spacing) ==> r.Failure?
    ensures |job.pts| > 0 && !SpacingFails(job.transforms, job.spacing) && Covered(job) ==>
      r == Success(PiecewiseResults(job))
    ensures |job.pts| > 0 && !Covered(job) && r.Success? ==> |r.value| < |job.pts|
  {
    if |job.pts| == 0 {
      return Failure("ValueError: zero-size array to reduction operation minimum which has no identity");
    }
    var lo, hi := Lowest(job.pts, job.d), Highest(job.pts, job.d);
    var pitch := PartitionPitch(job);
    var nblocks := PiecewiseGrid(lo, hi, pitch);
    var cells, members := PartitionPoints(job.pts, lo, pitch, nblocks);
    var indices := Concat(members);
    PiecewiseIndicesDistinct(job, nblocks, cells, indices);
    if Covered(job) {
      PiecewiseIndicesCovered(job, nblocks, cells, indices);
    } else {
      PiecewiseIndicesLost(job, nblocks, cells, indices);
    }
    if |members| == 0 {
      return Failure("ValueError: need at least one array to concatenate");
    }
    var permuted := TransformPartitions(job, cells);
    if permuted.Failure? {
      return Failure(permuted.error);
    }
    r := Scatter(indices, permuted.value);
    if Covered(job) {
      ScatterRestoresOrder(indices, permuted.value, r, PiecewiseResults(job));
    }
  }
}
