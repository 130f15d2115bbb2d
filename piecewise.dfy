/** The piecewise pipelines: piecewise_transform.distributed_apply_transform
    resamples every planned block and crops it back to its tile, leaving the
    assembly to a dask array; and its distributed_invert_displacement_vector_field
    plans canonical and extended slices with a quarter-block overlap, inverts
    each extended block, crops it and either writes it at its canonical slices
    or gathers the results into a zero-filled array in completion order. */
module PiecewiseTransform {
  import opened Wrappers
  import opened Axis
  import opened NdIndex
  import opened Arrays
  import opened BlockPlanner
  import opened OverlapCropper
  import opened TransformLocalizer
  import opened BlockResampler
  import opened BlockAssembly
  import opened DistributedTransform

  /** transform_single_block: resample the planned block m over its extended
      slices and crop out the overlap. The result is at most one block long
      on every axis; with every overlap below its block size it has exactly
      the shape of the block's tile and holds, at each voxel of the tile, the
      resampled extended block's element at that voxel. It fails exactly
      when a field of the transform list has no spacing entry. */
  method PiecewiseTransformBlock<T, V(!new)>(s: Setup<T, V>, bs: seq<nat>, ov: seq<nat>, coords: seq<Slice>, ghost m: seq<nat>)
    returns (r: Result<View<T>>)
    requires s.Valid() && ValidGrid(s.fix.shape, bs) && |ov| == |bs| && InRange(m, GridShape(s.fix.shape, bs))
    requires coords == ExtendedBlock(s.fix.shape, bs, ov, m)
    ensures r.Failure? <==> MissingSpacing(s.transforms, s.spacings)
    ensures r.Success? ==> r.value.Valid() && |r.value.shape| == |bs| && forall a :: 0 <= a < |bs| ==> r.value.shape[a] <= bs[a]
    ensures r.Success? && OverlapBelowBlock(bs, ov) ==>
      var tile := CanonicalBlock(s.fix.shape, bs, m);
      InImage(coords, s.fix.shape) &&
      (forall a :: 0 <= a < |bs| ==> r.value.shape[a] == tile[a].Length()) &&
      forall p :: InSlices(p, tile) ==>
        r.value.At(Local(p, Starts(tile))) == AlignedBlock(s, coords).value.At(Local(p, Starts(coords)))
  {
    ExtendedBlockContainsTile(s.fix.shape, bs, ov, m);
    var aligned := AlignBlock(s, coords);
    if aligned.Failure? {
      return Failure(aligned.error);
    }
    var cropped, placement := CropOverlap(coords, aligned.value, bs, ov);
    PlannedCrop(coords, aligned.value, bs, ov, s.fix.shape, m, cropped, placement);
    PlacementIsTile(s.fix.shape, bs, ov, m);
    r := Success(cropped);
  }

  /** invert_block: invert the field over the extended slices, crop out the
      overlap, and write the result at the canonical slices when writing to
      an output array (giving None, for the source's True), or hand it back.
      The quarter-block overlap is always below the block size, so the crop
      has exactly the shape of the canonical slices and holds, at each of
      their voxels, the inverse of the extended block at that voxel. */
  method PiecewiseInvertBlock<V>(field: View<V>, spacing: seq<nat>, invert: InvertKernel<V>, bs: seq<nat>,
                                 slices: seq<Slice>, slicesOverlaps: seq<Slice>, output: Volume?<V>, ghost m: seq<nat>)
    returns (r: Option<View<V>>)
    requires field.Valid() && ValidGrid(field.shape, bs) && InRange(m, GridShape(field.shape, bs))
    requires slices == CanonicalBlock(field.shape, bs, m)
    requires slicesOverlaps == ExtendedBlock(field.shape, bs, InversionOverlap(bs), m)
    requires output != null ==> output.shape == field.shape
    modifies output
    ensures InImage(slicesOverlaps, field.shape) && InImage(slices, field.shape)
    ensures r.Some? <==> output == null
    ensures r.Some? ==> r.value.Valid() && |r.value.shape| == |slices|
    ensures r.Some? ==> forall a :: 0 <= a < |slices| ==> r.value.shape[a] == slices[a].Length()
    ensures r.Some? ==> forall p :: InSlices(p, slices) ==>
        r.value.At(Local(p, Starts(slices))) == InvertedBlock(field, spacing, invert, slicesOverlaps).At(Local(p, Starts(slicesOverlaps)))
    ensures output != null ==> forall p ::
      output.cells(p) == if InSlices(p, slices) then InvertedBlock(field, spacing, invert, slicesOverlaps).At(Local(p, Starts(slicesOverlaps)))
                         else old(output.cells)(p)
  {
    var overlap := InversionOverlap(bs);
    forall a | 0 <= a < |bs|
      ensures overlap[a] < bs[a]
    {
      QuarterOverlapBelowBlock(bs[a]);
    }
    ExtendedBlockContainsTile(field.shape, bs, overlap, m);
    var inverse := InvertedBlock(field, spacing, invert, slicesOverlaps);
    var cropped, placement := CropOverlap(slicesOverlaps, inverse, bs, overlap);
    PlannedCrop(slicesOverlaps, inverse, bs, overlap, field.shape, m, cropped, placement);
    PlacementIsTile(field.shape, bs, overlap, m);
    assert placement == slices;
    if output == null {
      r := Some(cropped);
    } else {
      output.Write(slices, cropped);
      r := None;
    }
  }

  /** Writing block t's inverse at its canonical slices adds t to the
      blocks the volume holds. */
  lemma {:induction false} InvertTileStep<V>(field: View<V>, spacing: seq<nat>, invert: InvertKernel<V>, bs: seq<nat>, t: nat,
                                            c0: seq<int> -> V, c1: seq<int> -> V, before: seq<int> -> V, done: set<nat>)
    requires field.Valid() && ValidGrid(field.shape, bs) && t < |Enumerate(GridShape(field.shape, bs))|
    requires var m := Enumerate(GridShape(field.shape, bs))[t];
      InRange(m, GridShape(field.shape, bs)) &&
      var e := ExtendedBlock(field.shape, bs, InversionOverlap(bs), m);
      InImage(e, field.shape) &&
      forall p :: c1(p) == if InSlices(p, CanonicalBlock(field.shape, bs, m)) then InvertedBlock(field, spacing, invert, e).At(Local(p, Starts(e))) else c0(p)
    requires Assembled(c0, before, field.shape, bs, done, Inverted(field, spacing, invert, bs, InversionOverlap(bs)))
    ensures Assembled(c1, before, field.shape, bs, done + {t}, Inverted(field, spacing, invert, bs, InversionOverlap(bs)))
  {
    var m := Enumerate(GridShape(field.shape, bs))[t];
    var expected := Inverted(field, spacing, invert, bs, InversionOverlap(bs));
    forall p
      ensures c1(p) == if InSlices(p, CanonicalBlock(field.shape, bs, m)) then expected(p) else c0(p)
    {
      TileMembership(field.shape, bs, m, p);
    }
    AssembleStep(c0, c1, before, field.shape, bs, done, t, expected);
  }

  /** One completed block of PiecewiseInvert: its cropped inverse lands at
      its canonical slices in `inverse`, through the write path when there is
      an output array and through the collecting array otherwise, which adds
      block t to the blocks `inverse` holds. */
  method InvertTile<V>(field: View<V>, spacing: seq<nat>, invert: InvertKernel<V>, bs: seq<nat>, t: nat,
                       slices: seq<Slice>, slicesOverlaps: seq<Slice>, output: Volume?<V>, inverse: Volume<V>,
                       ghost before: seq<int> -> V, ghost done: set<nat>)
    requires field.Valid() && ValidGrid(field.shape, bs) && t < |Enumerate(GridShape(field.shape, bs))|
    requires var m := Enumerate(GridShape(field.shape, bs))[t];
      slices == CanonicalBlock(field.shape, bs, m) &&
      slicesOverlaps == ExtendedBlock(field.shape, bs, InversionOverlap(bs), m)
    requires inverse.shape == field.shape && (output != null ==> inverse == output)
    requires Assembled(inverse.cells, before, field.shape, bs, done, Inverted(field, spacing, invert, bs, InversionOverlap(bs)))
    modifies inverse
    ensures Assembled(inverse.cells, before, field.shape, bs, done + {t}, Inverted(field, spacing, invert, bs, InversionOverlap(bs)))
  {
    ghost var grid := Enumerate(GridShape(field.shape, bs));
    EnumerateInRange(GridShape(field.shape, bs));
    ghost var c0 := inverse.cells;
    var result := PiecewiseInvertBlock(field, spacing, invert, bs, slices, slicesOverlaps, output, grid[t]);
    if output == null {
      inverse.Write(slices, result.value);
    }
    InvertTileStep(field, spacing, invert, bs, t, c0, inverse.cells, before, done);
  }

  /** distributed_invert_displacement_vector_field of the piecewise module.
      With an output array (a write path), every block writes its cropped
      inverse at its canonical slices and the output is returned; without
      one, a zero-filled array collects the block results at their canonical
      slices. `order` is the order in which the blocks complete: any order in
      which every planned block occurs. Whatever the order, the result holds,
      inside the field's spatial shape, the inverse of every voxel's own
      extended block at that voxel, and outside it keeps the output's former
      values or zero. */
  method PiecewiseInvert<V>(field: View<V>, spacing: seq<nat>, invert: InvertKernel<V>, bs: seq<nat>, zero: V,
                            order: seq<nat>, output: Volume?<V>)
    returns (inverse: Volume<V>)
    requires field.Valid() && ValidGrid(field.shape, bs)
    requires output != null ==> output.shape == field.shape
    requires forall k :: 0 <= k < |order| ==> order[k] < |Enumerate(GridShape(field.shape, bs))|
    requires forall u :: 0 <= u < |Enumerate(GridShape(field.shape, bs))| ==> u in order
    modifies output
    ensures inverse.shape == field.shape
    ensures output != null ==> inverse == output
    ensures output == null ==> fresh(inverse)
    ensures forall p ::
      inverse.cells(p) == if InShape(p, field.shape) then InvertedAt(field, spacing, invert, bs, InversionOverlap(bs), p)
                          else if output != null then old(output.cells)(p) else zero
  {
    var shape := field.shape;
    var coords, coordsOverlaps := PlanInversionBlocks(shape, bs);
    ghost var grid := Enumerate(GridShape(shape, bs));
    EnumerateInRange(GridShape(shape, bs));
    if output != null {
      inverse := output;
    } else {
      inverse := new Volume.Filled(shape, zero);
    }
    ghost var before := inverse.cells;
    ghost var expected := Inverted(field, spacing, invert, bs, InversionOverlap(bs));
    ghost var done: set<nat> := {};
    var k := 0;
    while k < |order|
      invariant 0 <= k <= |order|
      invariant forall j :: 0 <= j < k ==> order[j] in done
      invariant forall u :: u in done ==> u < |grid|
      invariant Assembled(inverse.cells, before, shape, bs, done, expected)
    {
      var t := order[k];
      InvertTile(field, spacing, invert, bs, t, coords[t], coordsOverlaps[t], output, inverse, before, done);
      done := done + {t};
      k := k + 1;
    }
    forall u | 0 <= u < |grid|
      ensures u in done
    {
      assert u in order;
      var j :| 0 <= j < |order| && order[j] == u;
    }
    AssembledComplete(inverse.cells, before, shape, bs, done, expected);
  }
}
