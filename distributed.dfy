/** The distributed block pipelines: distributed_apply_transform resamples a
    moving image onto a fixed image block by block, and
    distributed_invert_displacement_vector_field inverts a displacement field
    block by block. Each block is computed over its extended slices, cropped
    back to its tile and written in place into the output volume. The
    cluster is left out: the blocks run one after the other in plan order,
    and the assembly lemmas show the final volume does not depend on that
    order. */
module DistributedTransform {
  import opened Wrappers
  import opened Axis
  import opened NdIndex
  import opened Arrays
  import opened BlockPlanner
  import opened OverlapCropper
  import opened TransformLocalizer
  import opened BlockResampler
  import opened BlockAssembly

  /** Where the cropped result of the block with extended slices `coords`
      is written: the placement of CropAxis on every axis. */
  function BlockPlacement(coords: seq<Slice>, bs: seq<nat>, ov: seq<nat>): (r: seq<Slice>)
    requires |coords| == |bs| == |ov| && forall a :: 0 <= a < |coords| ==> coords[a].start <= coords[a].stop
    ensures |r| == |coords|
    ensures forall a :: 0 <= a < |coords| ==> r[a] == CropAxis(coords[a], coords[a].Length(), bs[a], ov[a]).placement
  {
    seq(|coords|, a requires 0 <= a < |coords| => CropAxis(coords[a], coords[a].Length(), bs[a], ov[a]).placement)
  }

  /** The placement of a planned block lies inside the volume, and with
      every overlap below its block size it is the block's canonical tile. */
  lemma PlacementIsTile(shape: seq<nat>, bs: seq<nat>, ov: seq<nat>, m: seq<nat>)
    requires ValidGrid(shape, bs) && |ov| == |shape| && InRange(m, GridShape(shape, bs))
    ensures var e := ExtendedBlock(shape, bs, ov, m);
      forall a :: 0 <= a < |m| ==> e[a].start <= e[a].stop
    ensures var e := ExtendedBlock(shape, bs, ov, m);
      InImage(BlockPlacement(e, bs, ov), shape)
    ensures var e := ExtendedBlock(shape, bs, ov, m);
      OverlapBelowBlock(bs, ov) ==> BlockPlacement(e, bs, ov) == CanonicalBlock(shape, bs, m)
  {
    var e := ExtendedBlock(shape, bs, ov, m);
    CropPlacementInVolume(shape, bs, ov, m);
    var pl := BlockPlacement(e, bs, ov);
    forall a | 0 <= a < |m|
      ensures 0 <= pl[a].start <= pl[a].stop <= shape[a]
    {
      assert pl[a] == CropAxis(e[a], e[a].Length(), bs[a], ov[a]).placement;
    }
    if OverlapBelowBlock(bs, ov) {
      CropRestoresTile(shape, bs, ov, m);
      var can := CanonicalBlock(shape, bs, m);
      forall a | 0 <= a < |m|
        ensures pl[a] == can[a]
      {
        assert pl[a] == CropAxis(e[a], e[a].Length(), bs[a], ov[a]).placement;
      }
    }
  }

  /** The crop of a planned block: its placement is BlockPlacement, lies
      inside the volume and has the cropped shape, and reading the cropped
      view at a voxel of the placement reads the block result at that voxel. */
  lemma PlannedCrop<T>(coords: seq<Slice>, block: View<T>, bs: seq<nat>, ov: seq<nat>, shape: seq<nat>, m: seq<nat>,
                       cropped: View<T>, placement: seq<Slice>)
    requires ValidGrid(shape, bs) && |ov| == |shape| && InRange(m, GridShape(shape, bs))
    requires coords == ExtendedBlock(shape, bs, ov, m) && InImage(coords, shape)
    requires block.Valid() && |block.shape| == |coords|
    requires forall a :: 0 <= a < |coords| ==> block.shape[a] == coords[a].Length()
    requires cropped.Valid() && cropped.data == block.data && |placement| == |coords| == |cropped.shape|
    requires forall a :: 0 <= a < |coords| ==>
      var c := CropAxis(coords[a], block.shape[a], bs[a], ov[a]);
      placement[a] == c.placement && cropped.shape[a] == c.len && cropped.origin[a] == block.origin[a] + c.offset
    ensures placement == BlockPlacement(coords, bs, ov) && InImage(placement, shape)
    ensures forall a :: 0 <= a < |coords| ==> cropped.shape[a] == placement[a].Length()
    ensures forall p :: InSlices(p, placement) ==>
      cropped.At(Local(p, Starts(placement))) == block.At(Local(p, Starts(coords)))
  {
    CropPlacementInVolume(shape, bs, ov, m);
    PlacementIsTile(shape, bs, ov, m);
    ghost var pl := BlockPlacement(coords, bs, ov);
    forall a | 0 <= a < |coords|
      ensures placement[a] == pl[a] && cropped.shape[a] == placement[a].Length()
      ensures placement[a].start == coords[a].start + CropAxis(coords[a], block.shape[a], bs[a], ov[a]).offset
    {
      var c := CropAxis(coords[a], coords[a].Length(), bs[a], ov[a]);
      assert placement[a] == c.placement && cropped.shape[a] == c.len;
    }
    assert placement == pl;
    forall p | InSlices(p, placement)
      ensures cropped.At(Local(p, Starts(placement))) == block.At(Local(p, Starts(coords)))
    {
      CroppedAt(coords, block, bs, ov, cropped, placement, p);
    }
  }

  /** The tail that _transform_single_block and _invert_block share: crop
      the block result computed over the planned block's extended slices
      `coords`, then _write_block at the crop's placement. Every voxel of the
      placement receives the element of the block result at that voxel;
      every other voxel keeps its value. */
  method CropAndWrite<T>(coords: seq<Slice>, block: View<T>, bs: seq<nat>, ov: seq<nat>, output: Volume?<T>,
                         ghost shape: seq<nat>, ghost m: seq<nat>)
    returns (placement: seq<Slice>)
    requires ValidGrid(shape, bs) && |ov| == |shape| && InRange(m, GridShape(shape, bs))
    requires coords == ExtendedBlock(shape, bs, ov, m) && InImage(coords, shape)
    requires block.Valid() && |block.shape| == |coords|
    requires forall a :: 0 <= a < |coords| ==> block.shape[a] == coords[a].Length()
    requires output != null ==> output.shape == shape
    modifies output
    ensures placement == BlockPlacement(coords, bs, ov) && InImage(placement, shape)
    ensures output != null ==> forall p ::
      output.cells(p) == if InSlices(p, placement) then block.At(Local(p, Starts(coords))) else old(output.cells)(p)
  {
    var cropped;
    cropped, placement := CropOverlap(coords, block, bs, ov);
    PlannedCrop(coords, block, bs, ov, shape, m, cropped, placement);
    var written := WriteBlock(placement, cropped, output);
  }

  /** _transform_single_block: resample the block over its extended slices,
      crop it and write it. It fails, writing nothing, exactly when a field
      of the transform list has no spacing entry. */
  method TransformSingleBlock<T, V(!new)>(s: Setup<T, V>, bs: seq<nat>, ov: seq<nat>, coords: seq<Slice>,
                                          output: Volume?<T>, ghost m: seq<nat>)
    returns (r: Result<seq<Slice>>)
    requires s.Valid() && ValidGrid(s.fix.shape, bs) && |ov| == |bs| && InRange(m, GridShape(s.fix.shape, bs))
    requires coords == ExtendedBlock(s.fix.shape, bs, ov, m)
    requires output != null ==> output.shape == s.fix.shape
    modifies output
    ensures r.Failure? <==> MissingSpacing(s.transforms, s.spacings)
    ensures r.Failure? && output != null ==> output.cells == old(output.cells)
    ensures r.Success? ==> InImage(coords, s.fix.shape) && r.value == BlockPlacement(coords, bs, ov)
    ensures r.Success? && output != null ==> forall p ::
      output.cells(p) == if InSlices(p, r.value) then AlignedBlock(s, coords).value.At(Local(p, Starts(coords)))
                         else old(output.cells)(p)
  {
    ExtendedBlockContainsTile(s.fix.shape, bs, ov, m);
    var aligned := AlignBlock(s, coords);
    assert InImage(coords, s.fix.shape);
    if aligned.Failure? {
      return Failure(aligned.error);
    }
    var placement := CropAndWrite(coords, aligned.value, bs, ov, output, s.fix.shape, m);
    r := Success(placement);
  }

  /** The value the resampled volume holds at voxel p of the fixed image: the
      element at p of the resampled extended block of p's tile. Only defined
      inside the volume when localisation succeeds; elsewhere it is the
      fixed image's element, which no statement below depends on. */
  ghost function TransformedAt<T, V(!new)>(s: Setup<T, V>, bs: seq<nat>, ov: seq<nat>, p: seq<int>): T
    requires s.Valid() && ValidGrid(s.fix.shape, bs) && |ov| == |bs|
  {
    if InShape(p, s.fix.shape) && !MissingSpacing(s.transforms, s.spacings) then
      TileIsPlanned(s.fix.shape, bs, p);
      var e := ExtendedBlock(s.fix.shape, bs, ov, TileOf(p, bs));
      ExtendedBlockContainsTile(s.fix.shape, bs, ov, TileOf(p, bs));
      AlignedBlock(s, e).value.At(Local(p, Starts(e)))
    else s.fix.data(p)
  }

  /** TransformedAt as the contents of a whole volume. */
  ghost function Transformed<T, V(!new)>(s: Setup<T, V>, bs: seq<nat>, ov: seq<nat>): seq<int> -> T
    requires s.Valid() && ValidGrid(s.fix.shape, bs) && |ov| == |bs|
  {
    p => TransformedAt(s, bs, ov, p)
  }

  /** One step of a block loop: writing block t of the plan, whose written
      values are `w`, keeps the voxels outside the volume, and, with every
      overlap below its block size and `w` agreeing with `expected` on the
      block's tile, adds t to the blocks the volume holds. */
  lemma {:induction false} PlannedStep<T>(shape: seq<nat>, bs: seq<nat>, ov: seq<nat>, t: nat, w: seq<int> -> T,
                                          c0: seq<int> -> T, c1: seq<int> -> T, before: seq<int> -> T,
                                          done: set<nat>, expected: seq<int> -> T)
    requires ValidGrid(shape, bs) && |ov| == |bs|
    requires t < |Enumerate(GridShape(shape, bs))|
    requires var m := Enumerate(GridShape(shape, bs))[t];
      InRange(m, GridShape(shape, bs)) && InImage(ExtendedBlock(shape, bs, ov, m), shape)
    requires var m := Enumerate(GridShape(shape, bs))[t];
      forall p :: c1(p) == if InSlices(p, BlockPlacement(ExtendedBlock(shape, bs, ov, m), bs, ov)) then w(p) else c0(p)
    requires var m := Enumerate(GridShape(shape, bs))[t];
      OverlapBelowBlock(bs, ov) ==> forall p :: InSlices(p, CanonicalBlock(shape, bs, m)) ==> w(p) == expected(p)
    requires forall p :: !InShape(p, shape) ==> c0(p) == before(p)
    requires OverlapBelowBlock(bs, ov) ==> Assembled(c0, before, shape, bs, done, expected)
    ensures forall p :: !InShape(p, shape) ==> c1(p) == before(p)
    ensures OverlapBelowBlock(bs, ov) ==> Assembled(c1, before, shape, bs, done + {t}, expected)
  {
    var m := Enumerate(GridShape(shape, bs))[t];
    var placement := BlockPlacement(ExtendedBlock(shape, bs, ov, m), bs, ov);
    PlacementIsTile(shape, bs, ov, m);
    forall p | !InShape(p, shape)
      ensures c1(p) == before(p)
    {
      assert !InSlices(p, placement);
    }
    if OverlapBelowBlock(bs, ov) {
      AssembleStep(c0, c1, before, shape, bs, done, t, expected);
    }
  }

  /** On the tile of planned block m, TransformedAt is the block's own
      resampled result. */
  lemma TransformedOnTile<T, V(!new)>(s: Setup<T, V>, bs: seq<nat>, ov: seq<nat>, m: seq<nat>)
    requires s.Valid() && ValidGrid(s.fix.shape, bs) && |ov| == |bs| && InRange(m, GridShape(s.fix.shape, bs))
    requires !MissingSpacing(s.transforms, s.spacings)
    ensures InImage(ExtendedBlock(s.fix.shape, bs, ov, m), s.fix.shape)
    ensures var e := ExtendedBlock(s.fix.shape, bs, ov, m);
      forall p :: InSlices(p, CanonicalBlock(s.fix.shape, bs, m)) ==>
        Transformed(s, bs, ov)(p) == AlignedBlock(s, e).value.At(Local(p, Starts(e)))
  {
    ExtendedBlockContainsTile(s.fix.shape, bs, ov, m);
    forall p | InSlices(p, CanonicalBlock(s.fix.shape, bs, m))
      ensures TransformedAt(s, bs, ov, p) == AlignedBlock(s, ExtendedBlock(s.fix.shape, bs, ov, m)).value.At(
        Local(p, Starts(ExtendedBlock(s.fix.shape, bs, ov, m))))
    {
      TileMembership(s.fix.shape, bs, m, p);
    }
  }

  /** PlannedStep for a block written by TransformSingleBlock. */
  lemma TransformStep<T, V(!new)>(s: Setup<T, V>, bs: seq<nat>, ov: seq<nat>, t: nat,
                                  c0: seq<int> -> T, c1: seq<int> -> T, before: seq<int> -> T, done: set<nat>)
    requires s.Valid() && ValidGrid(s.fix.shape, bs) && |ov| == |bs| && !MissingSpacing(s.transforms, s.spacings)
    requires t < |Enumerate(GridShape(s.fix.shape, bs))|
    requires var m := Enumerate(GridShape(s.fix.shape, bs))[t];
      InRange(m, GridShape(s.fix.shape, bs)) &&
      var e := ExtendedBlock(s.fix.shape, bs, ov, m);
      InImage(e, s.fix.shape) &&
      forall p :: c1(p) == if InSlices(p, BlockPlacement(e, bs, ov)) then AlignedBlock(s, e).value.At(Local(p, Starts(e))) else c0(p)
    requires forall p :: !InShape(p, s.fix.shape) ==> c0(p) == before(p)
    requires OverlapBelowBlock(bs, ov) ==> Assembled(c0, before, s.fix.shape, bs, done, Transformed(s, bs, ov))
    ensures forall p :: !InShape(p, s.fix.shape) ==> c1(p) == before(p)
    ensures OverlapBelowBlock(bs, ov) ==> Assembled(c1, before, s.fix.shape, bs, done + {t}, Transformed(s, bs, ov))
  {
    var m := Enumerate(GridShape(s.fix.shape, bs))[t];
    var e := ExtendedBlock(s.fix.shape, bs, ov, m);
    TransformedOnTile(s, bs, ov, m);
    var w := p => AlignedBlock(s, e).value.At(Local(p, Starts(e)));
    PlannedStep(s.fix.shape, bs, ov, t, w, c0, c1, before, done, Transformed(s, bs, ov));
  }

  /** One step of the block loop of distributed_apply_transform: block t of
      the plan transformed and written. It fails, writing nothing, exactly
      when a field has no spacing entry; otherwise its placement lies inside
      the volume, is the block's tile when every overlap is below its block
      size, and then adds t to the blocks the output holds. */
  method ApplyTile<T, V(!new)>(s: Setup<T, V>, bs: seq<nat>, ov: seq<nat>, t: nat, coords: seq<Slice>, output: Volume?<T>,
                               ghost before: seq<int> -> T, ghost done: set<nat>)
    returns (r: Result<seq<Slice>>)
    requires s.Valid() && ValidGrid(s.fix.shape, bs) && |ov| == |bs|
    requires t < |Enumerate(GridShape(s.fix.shape, bs))|
    requires coords == ExtendedBlock(s.fix.shape, bs, ov, Enumerate(GridShape(s.fix.shape, bs))[t])
    requires output != null ==> output.shape == s.fix.shape
    requires output != null ==> forall p :: !InShape(p, s.fix.shape) ==> output.cells(p) == before(p)
    requires output != null && OverlapBelowBlock(bs, ov) ==>
      Assembled(output.cells, before, s.fix.shape, bs, done, Transformed(s, bs, ov))
    modifies output
    ensures r.Failure? <==> MissingSpacing(s.transforms, s.spacings)
    ensures r.Failure? && output != null ==> output.cells == old(output.cells)
    ensures r.Success? ==> InImage(r.value, s.fix.shape)
    ensures r.Success? && OverlapBelowBlock(bs, ov) ==>
      r.value == CanonicalBlock(s.fix.shape, bs, Enumerate(GridShape(s.fix.shape, bs))[t])
    ensures r.Success? && output != null ==> forall p :: !InShape(p, s.fix.shape) ==> output.cells(p) == before(p)
    ensures r.Success? && output != null && OverlapBelowBlock(bs, ov) ==>
      Assembled(output.cells, before, s.fix.shape, bs, done + {t}, Transformed(s, bs, ov))
  {
    ghost var m := Enumerate(GridShape(s.fix.shape, bs))[t];
    EnumerateInRange(GridShape(s.fix.shape, bs));
    ghost var c0 := before;
    if output != null {
      c0 := output.cells;
    }
    r := TransformSingleBlock(s, bs, ov, coords, output, m);
    if r.Success? {
      PlacementIsTile(s.fix.shape, bs, ov, m);
      if output != null {
        TransformStep(s, bs, ov, t, c0, output.cells, before, done);
      }
    }
  }

  /** distributed_apply_transform with an output array: plan the blocks,
      transform each, and return the placements written, in plan order.
      Every placement lies inside the volume and, with every overlap below
      its block size, is its block's tile; then the output holds, inside the
      volume, the resampled value of every voxel, and outside the volume
      nothing changes. It fails, writing nothing, exactly when a field of
      the transform list has no spacing entry and there is at least one
      block. Without an output array the blocks are computed and nothing is
      written. */
  method DistributedApplyTransform<T, V(!new)>(s: Setup<T, V>, bs: seq<nat>, ov: seq<nat>, output: Volume?<T>)
    returns (r: Result<seq<seq<Slice>>>)
    requires s.Valid() && ValidGrid(s.fix.shape, bs) && |ov| == |bs|
    requires output != null ==> output.shape == s.fix.shape
    modifies output
    ensures var grid := Enumerate(GridShape(s.fix.shape, bs));
      r.Failure? <==> MissingSpacing(s.transforms, s.spacings) && |grid| > 0
    ensures r.Failure? && output != null ==> output.cells == old(output.cells)
    ensures var grid := Enumerate(GridShape(s.fix.shape, bs));
      r.Success? ==> |r.value| == |grid| && forall t :: 0 <= t < |grid| ==>
        InImage(r.value[t], s.fix.shape) &&
        (OverlapBelowBlock(bs, ov) ==> r.value[t] == CanonicalBlock(s.fix.shape, bs, grid[t]))
    ensures r.Success? && output != null ==> forall p :: !InShape(p, s.fix.shape) ==> output.cells(p) == old(output.cells)(p)
    ensures r.Success? && output != null && OverlapBelowBlock(bs, ov) ==> forall p ::
      output.cells(p) == if InShape(p, s.fix.shape) then TransformedAt(s, bs, ov, p) else old(output.cells)(p)
  {
    var shape := s.fix.shape;
    var blocks := PlanExtendedBlocks(shape, bs, ov);
    ghost var grid := Enumerate(GridShape(shape, bs));
    EnumerateInRange(GridShape(shape, bs));
    ghost var before := s.fix.data;
    if output != null {
      before := output.cells;
    }
    var written: seq<seq<Slice>> := [];
    ghost var done: set<nat> := {};
    var t := 0;
    while t < |blocks|
      invariant 0 <= t <= |blocks| && |written| == t
      invariant t > 0 ==> !MissingSpacing(s.transforms, s.spacings)
      invariant forall u :: 0 <= u < t ==>
        InImage(written[u], shape) && (OverlapBelowBlock(bs, ov) ==> written[u] == CanonicalBlock(shape, bs, grid[u]))
      invariant output != null ==> output.cells == before || t > 0
      invariant output != null ==> forall p :: !InShape(p, shape) ==> output.cells(p) == before(p)
      invariant forall u: nat :: u in done <==> u < t
      invariant output != null && OverlapBelowBlock(bs, ov) ==> Assembled(output.cells, before, shape, bs, done, Transformed(s, bs, ov))
    {
      var res := ApplyTile(s, bs, ov, t, blocks[t], output, before, done);
      if res.Failure? {
        return Failure(res.error);
      }
      done := done + {t};
      written := written + [res.value];
      t := t + 1;
    }
    if output != null && OverlapBelowBlock(bs, ov) {
      AssembledComplete(output.cells, before, shape, bs, done, Transformed(s, bs, ov));
    }
    r := Success(written);
  }

  /** invert_displacement_vector_field, which this model does not interpret:
      given a block of the field and the spacing it returns the inverse
      field of the block's shape, by its element at each local index. */
  type InvertKernel<!V> = (View<V>, seq<nat>) -> (seq<int> -> V)

  /** The inverse of the block of the field at `coords`, before cropping. */
  function InvertedBlock<V>(field: View<V>, spacing: seq<nat>, invert: InvertKernel<V>, coords: seq<Slice>): (r: View<V>)
    requires field.Valid() && InImage(coords, field.shape)
    ensures r.Valid() && |r.shape| == |coords|
    ensures forall a :: 0 <= a < |coords| ==> r.shape[a] == coords[a].Length()
  {
    var block := SliceView(field, coords);
    View(invert(block, spacing), seq(|coords|, _ => 0), block.shape)
  }

  /** _invert_block: invert the field over the block's extended slices, crop
      the overlap and write the result at its placement. */
  method InvertBlock<V>(field: View<V>, spacing: seq<nat>, invert: InvertKernel<V>, bs: seq<nat>, ov: seq<nat>,
                        coords: seq<Slice>, output: Volume?<V>, ghost m: seq<nat>)
    returns (placement: seq<Slice>)
    requires field.Valid() && ValidGrid(field.shape, bs) && |ov| == |bs| && InRange(m, GridShape(field.shape, bs))
    requires coords == ExtendedBlock(field.shape, bs, ov, m)
    requires output != null ==> output.shape == field.shape
    modifies output
    ensures InImage(coords, field.shape) && placement == BlockPlacement(coords, bs, ov)
    ensures output != null ==> forall p ::
      output.cells(p) == if InSlices(p, placement) then InvertedBlock(field, spacing, invert, coords).At(Local(p, Starts(coords)))
                         else old(output.cells)(p)
  {
    ExtendedBlockContainsTile(field.shape, bs, ov, m);
    var blockField := SliceView(field, coords);
    var inverse := View(invert(blockField, spacing), seq(|coords|, _ => 0), blockField.shape);
    placement := CropAndWrite(coords, inverse, bs, ov, output, field.shape, m);
  }

  /** The value the inverted volume holds at voxel p: the element at p of
      the inverse of the extended block of p's tile. Only defined inside the
      volume; elsewhere it is the field's element, which no statement below
      depends on. */
  ghost function InvertedAt<V>(field: View<V>, spacing: seq<nat>, invert: InvertKernel<V>, bs: seq<nat>, ov: seq<nat>,
                               p: seq<int>): V
    requires field.Valid() && ValidGrid(field.shape, bs) && |ov| == |bs|
  {
    if InShape(p, field.shape) then
      TileIsPlanned(field.shape, bs, p);
      var e := ExtendedBlock(field.shape, bs, ov, TileOf(p, bs));
      ExtendedBlockContainsTile(field.shape, bs, ov, TileOf(p, bs));
      InvertedBlock(field, spacing, invert, e).At(Local(p, Starts(e)))
    else field.data(p)
  }

  /** InvertedAt as the contents of a whole volume. */
  ghost function Inverted<V>(field: View<V>, spacing: seq<nat>, invert: InvertKernel<V>, bs: seq<nat>, ov: seq<nat>): seq<int> -> V
    requires field.Valid() && ValidGrid(field.shape, bs) && |ov| == |bs|
  {
    p => InvertedAt(field, spacing, invert, bs, ov, p)
  }

  /** PlannedStep for a block written by InvertBlock. */
  lemma InvertStep<V>(field: View<V>, spacing: seq<nat>, invert: InvertKernel<V>, bs: seq<nat>, ov: seq<nat>, t: nat,
                      c0: seq<int> -> V, c1: seq<int> -> V, before: seq<int> -> V, done: set<nat>)
    requires field.Valid() && ValidGrid(field.shape, bs) && |ov| == |bs|
    requires t < |Enumerate(GridShape(field.shape, bs))|
    requires var m := Enumerate(GridShape(field.shape, bs))[t];
      InRange(m, GridShape(field.shape, bs)) &&
      var e := ExtendedBlock(field.shape, bs, ov, m);
      InImage(e, field.shape) &&
      forall p :: c1(p) == if InSlices(p, BlockPlacement(e, bs, ov)) then InvertedBlock(field, spacing, invert, e).At(Local(p, Starts(e))) else c0(p)
    requires forall p :: !InShape(p, field.shape) ==> c0(p) == before(p)
    requires OverlapBelowBlock(bs, ov) ==> Assembled(c0, before, field.shape, bs, done, Inverted(field, spacing, invert, bs, ov))
    ensures forall p :: !InShape(p, field.shape) ==> c1(p) == before(p)
    ensures OverlapBelowBlock(bs, ov) ==> Assembled(c1, before, field.shape, bs, done + {t}, Inverted(field, spacing, invert, bs, ov))
  {
    var m := Enumerate(GridShape(field.shape, bs))[t];
    var e := ExtendedBlock(field.shape, bs, ov, m);
    var w := p => InvertedBlock(field, spacing, invert, e).At(Local(p, Starts(e)));
    forall p | InSlices(p, CanonicalBlock(field.shape, bs, m))
      ensures w(p) == Inverted(field, spacing, invert, bs, ov)(p)
    {
      TileMembership(field.shape, bs, m, p);
    }
    PlannedStep(field.shape, bs, ov, t, w, c0, c1, before, done, Inverted(field, spacing, invert, bs, ov));
  }

  /** distributed_invert_displacement_vector_field: plan the blocks over the
      field's spatial axes with overlap `ov` (round(blocksize *
      overlap_factor)), invert each and write it into the output field.
      Every placement lies inside the volume and, with every overlap below
      its block size, is its block's tile; then the output holds, inside the
      volume, the inverse of every voxel's own block at that voxel, and
      outside the volume nothing changes. */
  method DistributedInvert<V>(field: View<V>, spacing: seq<nat>, invert: InvertKernel<V>, bs: seq<nat>, ov: seq<nat>,
                              output: Volume<V>)
    returns (written: seq<seq<Slice>>)
    requires field.Valid() && ValidGrid(field.shape, bs) && |ov| == |bs|
    requires output.shape == field.shape
    modifies output
    ensures var grid := Enumerate(GridShape(field.shape, bs));
      |written| == |grid| && forall t :: 0 <= t < |grid| ==>
        InImage(written[t], field.shape) &&
        (OverlapBelowBlock(bs, ov) ==> written[t] == CanonicalBlock(field.shape, bs, grid[t]))
    ensures forall p :: !InShape(p, field.shape) ==> output.cells(p) == old(output.cells)(p)
    ensures OverlapBelowBlock(bs, ov) ==> forall p ::
      output.cells(p) == if InShape(p, field.shape) then InvertedAt(field, spacing, invert, bs, ov, p) else old(output.cells)(p)
  {
    var shape := field.shape;
    var blocks := PlanExtendedBlocks(shape, bs, ov);
    ghost var grid := Enumerate(GridShape(shape, bs));
    EnumerateInRange(GridShape(shape, bs));
    ghost var before := output.cells;
    written := [];
    ghost var done: set<nat> := {};
    var t := 0;
    while t < |blocks|
      invariant 0 <= t <= |blocks| && |written| == t
      invariant forall u :: 0 <= u < t ==>
        InImage(written[u], shape) && (OverlapBelowBlock(bs, ov) ==> written[u] == CanonicalBlock(shape, bs, grid[u]))
      invariant forall p :: !InShape(p, shape) ==> output.cells(p) == before(p)
      invariant forall u: nat :: u in done <==> u < t
      invariant OverlapBelowBlock(bs, ov) ==> Assembled(output.cells, before, shape, bs, done, Inverted(field, spacing, invert, bs, ov))
    {
      ghost var c0 := output.cells;
      var placement := InvertBlock(field, spacing, invert, bs, ov, blocks[t], output, grid[t]);
      PlacementIsTile(shape, bs, ov, grid[t]);
      InvertStep(field, spacing, invert, bs, ov, t, c0, output.cells, before, done);
      done := done + {t};
      written := written + [placement];
      t := t + 1;
    }
    if OverlapBelowBlock(bs, ov) {
      AssembledComplete(output.cells, before, shape, bs, done, Inverted(field, spacing, invert, bs, ov));
    }
  }

  // ---------------------------------------------------------------------
  // How the block call binds its arguments

  /** The parameters of _transform_single_block, in order. A keyword that
      names none of them is gathered in **additional_transform_args, which
      is handed on to apply_transform. */
  const BlockParams: seq<string> := ["fix_block_read_method", "mov_block_read_method", "block_coords",
    "full_mov_shape", "fix_spacing", "mov_spacing", "blocksize", "blockoverlaps",
    "transform_list", "transform_spacing_list", "output"]

  /** The keywords distributed_apply_transform fixes in its partial: every
      parameter after block_coords. */
  const FixedKeywords: seq<string> := BlockParams[3..]

  /** A positional argument of the block call: one of the two block readers,
      a key of the caller's keyword dict, or the block's slices. */
  datatype Arg = Reader | Key(name: string) | Coords

  /** What a call that binds receives: its block_coords argument and the
      names gathered in additional_transform_args. */
  datatype Binding = Binding(blockCoords: Arg, additional: set<string>)

  /** Some keyword names a parameter that the first n positional arguments
      already bind. */
  predicate BoundTwice(n: nat, keywords: seq<string>)
  {
    exists k :: 0 <= k < |keywords| && keywords[k] in BlockParams[..Min(n, |BlockParams|)]
  }

  /** Some keyword is given twice. */
  predicate Repeated(keywords: seq<string>)
  {
    exists i, j :: 0 <= i < j < |keywords| && keywords[i] == keywords[j]
  }

  /** Python's binding of a call of _transform_single_block whose first
      three arguments are positional: TypeError when there are more
      positional arguments than parameters, when a keyword is given twice or
      when a keyword names a parameter already bound by position; otherwise
      the third positional argument is block_coords, and exactly the
      keywords that name no parameter reach additional_transform_args. */
  function BindBlockCall(positional: seq<Arg>, keywords: seq<string>): (r: Result<Binding>)
    requires |positional| >= 3
    ensures r.Failure? <==> |positional| > |BlockParams| || Repeated(keywords) || BoundTwice(|positional|, keywords)
    ensures r.Success? ==> r.value.blockCoords == positional[2]
    ensures r.Success? ==> forall x :: x in r.value.additional <==> x in keywords && x !in BlockParams
  {
    if |positional| > |BlockParams| then Failure("TypeError: too many positional arguments")
    else if Repeated(keywords) then Failure("TypeError: got multiple values for keyword argument")
    else if BoundTwice(|positional|, keywords) then Failure("TypeError: got multiple values for argument")
    else Success(Binding(positional[2], set x | x in keywords && x !in BlockParams))
  }

  /** The block call as distributed_apply_transform writes it: `*kwargs`
      unpacks the KEYS of the keyword dict as positional arguments after the
      two readers, the block's slices come after them, and the parameters
      after block_coords are fixed by keyword. */
  function AsWrittenBlockCall(kwargs: seq<string>): Result<Binding>
  {
    BindBlockCall([Reader, Reader] + seq(|kwargs|, i requires 0 <= i < |kwargs| => Key(kwargs[i])) + [Coords],
                  FixedKeywords)
  }

  /** The block call as evidently intended, with `**kwargs`: the keyword
      dict is passed by keyword. */
  function IntendedBlockCall(kwargs: seq<string>): Result<Binding>
  {
    BindBlockCall([Reader, Reader, Coords], FixedKeywords + kwargs)
  }

  /** The parameter names are all different. */
  lemma ParamsDistinct()
    ensures forall i, j :: 0 <= i < j < |BlockParams| ==> BlockParams[i] != BlockParams[j]
  {
  }

  /** As written, any extra keyword argument makes the call of every block
      raise TypeError: the block's slices no longer reach block_coords, and
      full_mov_shape is given both by position and by keyword. Without one
      the call binds the block's slices and passes nothing more on. */
  lemma StarKwargsFailsEveryBlock(kwargs: seq<string>)
    ensures AsWrittenBlockCall(kwargs).Failure? <==> |kwargs| > 0
    ensures |kwargs| == 0 ==> AsWrittenBlockCall(kwargs) == Success(Binding(Coords, {}))
  {
    ParamsDistinct();
    var positional := [Reader, Reader] + seq(|kwargs|, i requires 0 <= i < |kwargs| => Key(kwargs[i])) + [Coords];
    if |kwargs| > 0 {
      assert |positional| >= 4;
      if |positional| <= |BlockParams| {
        assert FixedKeywords[0] == BlockParams[3] && BlockParams[3] in BlockParams[..|positional|];
      }
    } else {
      assert positional == [Reader, Reader, Coords];
      forall i, j | 0 <= i < j < |FixedKeywords| ensures FixedKeywords[i] != FixedKeywords[j] {
        assert FixedKeywords[i] == BlockParams[i + 3] && FixedKeywords[j] == BlockParams[j + 3];
      }
      forall k | 0 <= k < |FixedKeywords| ensures FixedKeywords[k] !in BlockParams[..3] {
        assert FixedKeywords[k] == BlockParams[k + 3];
      }
      forall x | x in FixedKeywords ensures x in BlockParams {}
      assert (set x | x in FixedKeywords && x !in BlockParams) == {};
    }
  }

  /** Intended: with `**kwargs` a call binds exactly when no key of the
      keyword dict names a parameter of _transform_single_block, and then
      the block's slices are block_coords and every key reaches
      additional_transform_args, and so apply_transform. */
  lemma DoubleStarKwargsReachApplyTransform(kwargs: seq<string>)
    requires !Repeated(kwargs)
    ensures IntendedBlockCall(kwargs).Success? <==> forall k :: 0 <= k < |kwargs| ==> kwargs[k] !in BlockParams
    ensures IntendedBlockCall(kwargs).Success? ==>
      IntendedBlockCall(kwargs).value.blockCoords == Coords &&
      forall x :: x in IntendedBlockCall(kwargs).value.additional <==> x in kwargs
  {
    ParamsDistinct();
    var keywords := FixedKeywords + kwargs;
    if forall k :: 0 <= k < |kwargs| ==> kwargs[k] !in BlockParams {
      forall i, j | 0 <= i < j < |keywords| ensures keywords[i] != keywords[j] {
        if j >= |FixedKeywords| && i < |FixedKeywords| {
          assert keywords[i] == BlockParams[i + 3];
          assert keywords[j] == kwargs[j - |FixedKeywords|];
        } else if i >= |FixedKeywords| {
          assert keywords[i] == kwargs[i - |FixedKeywords|];
          assert keywords[j] == kwargs[j - |FixedKeywords|];
        } else {
          assert keywords[i] == BlockParams[i + 3] && keywords[j] == BlockParams[j + 3];
        }
      }
      forall k | 0 <= k < |keywords| ensures keywords[k] !in BlockParams[..3] {
        if k < |FixedKeywords| {
          assert keywords[k] == BlockParams[k + 3];
        } else {
          assert keywords[k] == kwargs[k - |FixedKeywords|];
        }
      }
    } else {
      var k :| 0 <= k < |kwargs| && kwargs[k] in BlockParams;
      var p :| 0 <= p < |BlockParams| && BlockParams[p] == kwargs[k];
      assert keywords[|FixedKeywords| + k] == kwargs[k];
      if p < 3 {
        assert BlockParams[p] in BlockParams[..3];
      } else {
        assert keywords[p - 3] == BlockParams[p];
      }
    }
  }
}
