/** The overlap crop that every block pipeline applies to its result before
    writing it: axis by axis, drop the left overlap when the block's extended
    slice does not start at 0, then truncate to the block size, and compute
    where the kept part belongs in the full volume. */
module OverlapCropper {
  import opened Axis
  import opened Arrays
  import opened NdIndex
  import opened BlockPlanner

  /** [slice(None)] * ndim with `s` on `axis`: the index tuple of a one-axis
      crop of an array of this shape. */
  function AxisSlices(shape: seq<nat>, axis: nat, s: Slice): (r: seq<Slice>)
    ensures |r| == |shape|
    ensures forall k :: 0 <= k < |shape| ==> r[k] == (if k == axis then s else Slice(0, shape[k]))
  {
    seq(|shape|, k requires 0 <= k < |shape| => if k == axis then s else Slice(0, shape[k]))
  }

  /** Cropping `block` (the result computed over the extended slices
      `blockCoords`) axis by axis. The data is never copied: the result is a
      view of the same data. `placement` is where the cropped block belongs in
      the volume. Each axis is cropped exactly as CropAxis says. */
  method CropOverlap<T>(blockCoords: seq<Slice>, block: View<T>, bs: seq<nat>, ov: seq<nat>)
    returns (cropped: View<T>, placement: seq<Slice>)
    requires block.Valid() && |blockCoords| == |block.shape| == |bs| == |ov|
    ensures cropped.Valid() && cropped.data == block.data
    ensures |placement| == |blockCoords| == |cropped.shape|
    ensures forall a :: 0 <= a < |blockCoords| ==>
      var c := CropAxis(blockCoords[a], block.shape[a], bs[a], ov[a]);
      placement[a] == c.placement && cropped.shape[a] == c.len && cropped.origin[a] == block.origin[a] + c.offset
  {
    cropped := block;
    placement := [];
    var axis := 0;
    while axis < |blockCoords|
      invariant 0 <= axis <= |blockCoords| && |placement| == axis
      invariant cropped.Valid() && cropped.data == block.data && |cropped.shape| == |block.shape|
      invariant forall a :: 0 <= a < axis ==>
        var c := CropAxis(blockCoords[a], block.shape[a], bs[a], ov[a]);
        placement[a] == c.placement && cropped.shape[a] == c.len && cropped.origin[a] == block.origin[a] + c.offset
      invariant forall a :: axis <= a < |blockCoords| ==>
        cropped.shape[a] == block.shape[a] && cropped.origin[a] == block.origin[a]
    {
      var next, place := CropOneAxis(cropped, axis, blockCoords[axis], bs[axis], ov[axis]);
      cropped, placement := next, placement + [place];
      axis := axis + 1;
    }
  }

  /** One pass of the crop loop: drop the left overlap of `axis` when the
      extended slice does not start at 0, then truncate the axis to bs; the
      other axes are left as they are. */
  method CropOneAxis<T>(view: View<T>, axis: nat, ext: Slice, bs: nat, ov: nat) returns (next: View<T>, place: Slice)
    requires view.Valid() && axis < |view.shape|
    ensures next.Valid() && next.data == view.data && |next.shape| == |view.shape|
    ensures forall k :: 0 <= k < |view.shape| && k != axis ==> next.shape[k] == view.shape[k] && next.origin[k] == view.origin[k]
    ensures var c := CropAxis(ext, view.shape[axis], bs, ov);
      place == c.placement && next.shape[axis] == c.len && next.origin[axis] == view.origin[axis] + c.offset
  {
    next := view;
    // left side
    var start, stop := ext.start, ext.stop;
    if ext.start != 0 {
      next := SliceView(next, AxisSlices(next.shape, axis, Slice(ov, next.shape[axis])));
      start := start + ov;
    }
    // right side
    if next.shape[axis] > bs {
      next := SliceView(next, AxisSlices(next.shape, axis, Slice(0, bs)));
      stop := start + next.shape[axis];
    }
    place := Slice(start, stop);
  }

  /** Every overlap is below its block size. */
  predicate OverlapBelowBlock(bs: seq<nat>, ov: seq<nat>)
  {
    |ov| == |bs| && forall a :: 0 <= a < |bs| ==> ov[a] < bs[a]
  }

  /** With 0 <= ov < bs on every axis, cropping an array computed over a
      planned block's extended slices (so its shape is their lengths) keeps
      exactly the block's canonical tile: the placement is the tile, the
      cropped shape is the tile's shape, and the dropped prefix is the left
      overlap that planning added. */
  lemma CropRestoresTile(shape: seq<nat>, bs: seq<nat>, ov: seq<nat>, m: seq<nat>)
    requires ValidGrid(shape, bs) && OverlapBelowBlock(bs, ov) && InRange(m, GridShape(shape, bs))
    ensures forall a :: 0 <= a < |m| ==> 0 <= ExtendedBlock(shape, bs, ov, m)[a].Length()
    ensures var e, can := ExtendedBlock(shape, bs, ov, m), CanonicalBlock(shape, bs, m);
      forall a :: 0 <= a < |m| ==>
        var c := CropAxis(e[a], e[a].Length(), bs[a], ov[a]);
        c.placement == can[a] && c.len == can[a].Length() && c.offset == can[a].start - e[a].start
  {
    forall a | 0 <= a < |m|
      ensures var e, can := ExtendedSlice(shape[a], bs[a], ov[a], m[a]), CanonicalSlice(shape[a], bs[a], m[a]);
        0 <= e.Length() &&
        var c := CropAxis(e, e.Length(), bs[a], ov[a]);
        c.placement == can && c.len == can.Length() && c.offset == can.start - e.start
    {
      CropRestoresCanonical(shape[a], bs[a], ov[a], m[a]);
    }
  }

  /** For every overlap, the placement of a planned block's cropped result
      lies inside the volume and has exactly the cropped shape, so writing it
      there is well defined. */
  lemma CropPlacementInVolume(shape: seq<nat>, bs: seq<nat>, ov: seq<nat>, m: seq<nat>)
    requires ValidGrid(shape, bs) && |ov| == |shape| && InRange(m, GridShape(shape, bs))
    ensures forall a :: 0 <= a < |m| ==> 0 <= ExtendedBlock(shape, bs, ov, m)[a].Length()
    ensures var e := ExtendedBlock(shape, bs, ov, m);
      forall a :: 0 <= a < |m| ==>
        var c := CropAxis(e[a], e[a].Length(), bs[a], ov[a]);
        0 <= c.placement.start <= c.placement.stop <= shape[a] && c.placement.Length() == c.len &&
        c.placement.start == e[a].start + c.offset
  {
    forall a | 0 <= a < |m|
      ensures var e := ExtendedSlice(shape[a], bs[a], ov[a], m[a]);
        0 <= e.start <= e.stop <= shape[a] &&
        var c := CropAxis(e, e.Length(), bs[a], ov[a]);
        0 <= c.placement.start <= c.placement.stop <= shape[a] && c.placement.Length() == c.len &&
        c.placement.start == e.start + c.offset
    {
      ExtendedContainsCanonical(shape[a], bs[a], 0, m[a]);
      ExtendedContainsCanonical(shape[a], bs[a], ov[a], m[a]);
      CropPlacementFits(shape[a], bs[a], ov[a], m[a]);
    }
  }

  /** Where the placement starts where the kept part starts, every voxel of
      the placement reads, from the cropped view, the element of the full
      block result at the same position of the volume. */
  lemma CroppedAt<T>(blockCoords: seq<Slice>, block: View<T>, bs: seq<nat>, ov: seq<nat>,
                     cropped: View<T>, placement: seq<Slice>, p: seq<int>)
    requires block.Valid() && cropped.Valid() && cropped.data == block.data
    requires |blockCoords| == |block.shape| == |bs| == |ov| == |placement| == |cropped.shape| == |p|
    requires forall a :: 0 <= a < |blockCoords| ==>
      var c := CropAxis(blockCoords[a], block.shape[a], bs[a], ov[a]);
      placement[a] == c.placement && cropped.origin[a] == block.origin[a] + c.offset &&
      c.placement.start == blockCoords[a].start + c.offset
    ensures cropped.At(Local(p, Starts(placement))) == block.At(Local(p, Starts(blockCoords)))
  {
    assert Add(cropped.origin, Local(p, Starts(placement))) == Add(block.origin, Local(p, Starts(blockCoords)));
  }
}
