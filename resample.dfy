/** The resampling of one block, shared by the distributed and the piecewise
    block pipelines: localise the transforms to the block, map the block's
    corners into the moving image to find the moving region to read, and
    resample it onto the fixed block. The numeric kernels are parameters. */
module BlockResampler {
  import opened Wrappers
  import opened Axis
  import opened NdIndex
  import opened Arrays
  import opened TransformLocalizer
  import opened MovingBox

  /** The numeric kernels, which this model does not interpret.
      `warp(transforms, spacings, origins, x)` is apply_transform_to_coordinates
      for one physical point followed by the division by the moving spacing
      and the rounding: it gives the moving voxel the point lands on.
      `resample(fix, mov, transforms, origins, fixOrigin, movOrigin)` is
      apply_transform, together with the caller's extra keyword arguments as
      `**kwargs` would pass them on: its result has the fixed block's shape,
      and is given by its element at each local index. */
  datatype Kernels<!T, !V(!new)> = Kernels(
    warp: (seq<Transform<V>>, seq<seq<nat>>, seq<seq<int>>, seq<int>) -> seq<int>,
    resample: (View<T>, View<T>, seq<Transform<V>>, seq<seq<int>>, seq<int>, seq<int>) -> (seq<int> -> T))

  /** Everything a block pipeline reads besides the block's coordinates. */
  datatype Setup<!T, !V(!new)> = Setup(fix: View<T>, mov: View<T>, fixSpacing: seq<nat>, movSpacing: seq<nat>,
                               transforms: seq<Transform<V>>, spacings: seq<seq<nat>>, kernels: Kernels<T, V>)
  {
    /** The images and spacings share the fixed image's axes, and the warp
        maps a point to a point of the same dimension. */
    ghost predicate Valid()
    {
      fix.Valid() && mov.Valid() && |mov.shape| == |fix.shape| == |fixSpacing| == |movSpacing| &&
      FieldsHaveAxes(transforms, |fix.shape|) && SpacingsHaveAxes(spacings, |fix.shape|) &&
      forall ts, sp, os, x :: |kernels.warp(ts, sp, os, x)| == |x|
    }
  }

  /** The slices lie inside an array of this shape. */
  predicate InImage(coords: seq<Slice>, shape: seq<nat>)
  {
    |coords| == |shape| && forall a :: 0 <= a < |shape| ==> 0 <= coords[a].start <= coords[a].stop <= shape[a]
  }

  /** A block always has at least one corner. */
  lemma CornersNonEmpty(block: seq<Slice>)
    ensures |Corners(block)| > 0
  {
    CornersAreTheCorners(block, []);
    Pow2Positive(|block|);
  }

  lemma {:induction false} Pow2Positive(n: nat)
    ensures Pow2(n) > 0
  {
    if n > 0 {
      Pow2Positive(n - 1);
    }
  }

  /** The block's corners in physical units, mapped to moving voxels. */
  function MappedCorners<T, V(!new)>(s: Setup<T, V>, loc: Localized<V>, coords: seq<Slice>): (r: seq<seq<int>>)
    requires s.Valid() && |coords| == |s.fix.shape|
    ensures |r| == |Corners(coords)| > 0 && PointsIn(r, |s.mov.shape|)
  {
    CornersNonEmpty(coords);
    var corners := Corners(coords);
    var r := seq(|corners|, t requires 0 <= t < |corners| =>
      s.kernels.warp(loc.transforms, s.spacings, loc.origins, Scale(s.fixSpacing, corners[t])));
    assert forall t :: 0 <= t < |r| ==> |r[t]| == |s.mov.shape| by {
      forall t | 0 <= t < |r|
        ensures |r[t]| == |s.mov.shape|
      {
        WarpLength(s, loc.transforms, s.spacings, loc.origins, Scale(s.fixSpacing, corners[t]));
      }
    }
    r
  }

  /** The warp maps a point to a point of the same dimension. */
  lemma WarpLength<T, V(!new)>(s: Setup<T, V>, ts: seq<Transform<V>>, sp: seq<seq<nat>>, os: seq<seq<int>>, x: seq<int>)
    requires s.Valid()
    ensures |s.kernels.warp(ts, sp, os, x)| == |x|
  {
  }

  /** The resampled block for the extended slices `coords`, before cropping,
      or the IndexError of the localisation. It is a fresh array of the fixed
      block's shape. */
  function AlignedBlock<T, V(!new)>(s: Setup<T, V>, coords: seq<Slice>): (r: Result<View<T>>)
    requires s.Valid() && InImage(coords, s.fix.shape)
    ensures r.Failure? <==> MissingSpacing(s.transforms, s.spacings)
    ensures r.Success? ==> r.value.Valid() && |r.value.shape| == |coords|
    ensures r.Success? ==>
      forall a :: 0 <= a < |coords| ==> r.value.shape[a] == coords[a].Length() && r.value.origin[a] == 0
  {
    var loc := Localize(s.transforms, s.spacings, coords, s.fixSpacing);
    if loc.Failure? then Failure(loc.error)
    else
      var movSlices := MovingSlices(MappedCorners(s, loc.value, coords), s.mov.shape);
      var fixBlock := SliceView(s.fix, coords);
      var data := s.kernels.resample(fixBlock, SliceView(s.mov, movSlices), loc.value.transforms, loc.value.origins,
                                     Scale(s.fixSpacing, Starts(coords)), Scale(s.movSpacing, Starts(movSlices)));
      Success(View(data, seq(|coords|, _ => 0), fixBlock.shape))
  }

  /** The moving region that AlignedBlock reads: inside the moving image. */
  lemma MovingRegionInImage<T, V(!new)>(s: Setup<T, V>, coords: seq<Slice>)
    requires s.Valid() && InImage(coords, s.fix.shape) && !MissingSpacing(s.transforms, s.spacings)
    ensures var loc := Localize(s.transforms, s.spacings, coords, s.fixSpacing);
      InImage(MovingSlices(MappedCorners(s, loc.value, coords), s.mov.shape), s.mov.shape)
  {
  }

  /** Steps 1-4 of _transform_single_block: localise, map the corners, read
      the moving region, resample. */
  method AlignBlock<T, V(!new)>(s: Setup<T, V>, coords: seq<Slice>) returns (r: Result<View<T>>)
    requires s.Valid() && InImage(coords, s.fix.shape)
    ensures r == AlignedBlock(s, coords)
  {
    var fixOrigin := Scale(s.fixSpacing, Starts(coords));
    var fixBlock := SliceView(s.fix, coords);
    var loc := LocalizeTransforms(s.transforms, s.spacings, coords, s.fixSpacing);
    if loc.Failure? {
      return Failure(loc.error);
    }
    var corners := BlockCorners(coords);
    var physical := seq(|corners|, t requires 0 <= t < |corners| => Scale(s.fixSpacing, corners[t]));
    var mapped := seq(|physical|, t requires 0 <= t < |physical| =>
      s.kernels.warp(loc.value.transforms, s.spacings, loc.value.origins, physical[t]));
    assert mapped == MappedCorners(s, loc.value, coords);
    CornersNonEmpty(coords);
    var movSlices := MovingSlices(mapped, s.mov.shape);
    var movOrigin := Scale(s.movSpacing, Starts(movSlices));
    var movBlock := SliceView(s.mov, movSlices);
    var data := s.kernels.resample(fixBlock, movBlock, loc.value.transforms, loc.value.origins, fixOrigin, movOrigin);
    r := Success(View(data, seq(|coords|, _ => 0), fixBlock.shape));
  }
}
