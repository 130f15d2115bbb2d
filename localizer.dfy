/** Localising the transform list to one block: an affine matrix passes
    through unchanged and keeps the block's physical origin; a displacement
    field is cut down to the voxel window that covers the block and keeps that
    window's physical origin. Also the two other field crops of the
    coordinate pipelines and the normalisation of the transform spacing
    argument. Spacings are integers here (see README). */
module TransformLocalizer {
  import opened Wrappers
  import opened Axis
  import opened Arrays

  /** One entry of a transform list: a 4x4 affine matrix, or a displacement
      field given as an array over the spatial axes whose elements are the
      displacement vectors. */
  datatype Transform<V> = Affine(matrix: seq<seq<int>>) | Field(field: View<V>)

  /** Each field of the list is a valid array with d spatial axes. */
  predicate FieldsHaveAxes<V>(transforms: seq<Transform<V>>, d: nat)
  {
    forall t :: 0 <= t < |transforms| && transforms[t].Field? ==>
      transforms[t].field.Valid() && |transforms[t].field.shape| == d
  }

  /** Each spacing vector has d positive entries. */
  predicate SpacingsHaveAxes(spacings: seq<seq<nat>>, d: nat)
  {
    forall t :: 0 <= t < |spacings| ==> |spacings[t]| == d && forall a :: 0 <= a < d ==> spacings[t][a] > 0
  }

  /** Element-wise product of a spacing and a vector of voxel positions. */
  function Scale(spacing: seq<nat>, v: seq<int>): (r: seq<int>)
    requires |spacing| == |v|
    ensures |r| == |v| && forall a :: 0 <= a < |v| ==> r[a] == spacing[a] * v[a]
  {
    seq(|v|, a requires 0 <= a < |v| => spacing[a] * v[a])
  }

  /** The voxel window of a field with spacing ts that covers the block
      `coords` of an image with spacing fs: from floor(fs * start / ts) to
      ceil(stop * fs / ts), axis by axis. */
  function FieldWindow(coords: seq<Slice>, fs: seq<nat>, ts: seq<nat>): (w: seq<Slice>)
    requires |fs| == |coords| == |ts| && forall a :: 0 <= a < |ts| ==> ts[a] > 0
    ensures |w| == |coords|
    ensures forall a :: 0 <= a < |coords| ==>
      w[a] == Slice(FloorDiv(fs[a] * coords[a].start, ts[a]), CeilDiv(coords[a].stop * fs[a], ts[a]))
  {
    seq(|coords|, a requires 0 <= a < |coords| =>
      Slice(FloorDiv(fs[a] * coords[a].start, ts[a]), CeilDiv(coords[a].stop * fs[a], ts[a])))
  }

  /** The field window covers the block's physical extent [fs*start, fs*stop)
      and overhangs it by less than one field voxel on each side. */
  lemma FieldWindowCovers(coords: seq<Slice>, fs: seq<nat>, ts: seq<nat>)
    requires |fs| == |coords| == |ts| && forall a :: 0 <= a < |ts| ==> ts[a] > 0
    ensures var w := FieldWindow(coords, fs, ts);
      forall a :: 0 <= a < |coords| ==>
        w[a].start * ts[a] <= fs[a] * coords[a].start < w[a].start * ts[a] + ts[a] &&
        w[a].stop * ts[a] - ts[a] < fs[a] * coords[a].stop <= w[a].stop * ts[a]
  {
    var w := FieldWindow(coords, fs, ts);
    forall a | 0 <= a < |coords|
      ensures fs[a] * coords[a].stop == coords[a].stop * fs[a]
    {
    }
  }

  /** A field sampled like the image gets exactly the block's own slices. */
  lemma {:induction false} FieldWindowSameSpacing(coords: seq<Slice>, fs: seq<nat>)
    requires |fs| == |coords| && forall a :: 0 <= a < |fs| ==> fs[a] > 0
    ensures FieldWindow(coords, fs, fs) == coords
  {
    var w := FieldWindow(coords, fs, fs);
    forall a | 0 <= a < |coords|
      ensures w[a] == coords[a]
    {
      ExactQuotient(coords[a].start, fs[a]);
      ExactQuotient(coords[a].stop, fs[a]);
      assert coords[a].stop * fs[a] == fs[a] * coords[a].stop;
    }
  }

  /** Dividing a multiple of b by b is exact, rounded either way. */
  lemma {:induction false} ExactQuotient(x: int, b: int)
    requires b > 0
    ensures FloorDiv(b * x, b) == x && CeilDiv(b * x, b) == x
  {
    CellIsQuotient(b * x, b, x);
    var q := CeilDiv(b * x, b);
    assert b * (x - 1) == b * x - b && b * (x + 1) == b * x + b;
    assert q * b == b * q;
    if q < x {
      MulMonotone(b, q, x - 1);
      assert false;
    } else if q > x {
      MulMonotone(b, x + 1, q);
      assert false;
    }
  }

  /** The result of localising transform number t of the list for one
      block: the transform to apply and its physical origin. Only a field
      reads its spacing entry. */
  function LocalizeOne<V>(transforms: seq<Transform<V>>, spacings: seq<seq<nat>>, t: nat, coords: seq<Slice>, fs: seq<nat>): (r: (Transform<V>, seq<int>))
    requires |fs| == |coords| && FieldsHaveAxes(transforms, |coords|) && SpacingsHaveAxes(spacings, |coords|)
    requires t < |transforms| && (transforms[t].Field? ==> t < |spacings|)
  {
    match transforms[t]
    case Affine(_) => (transforms[t], Scale(fs, Starts(coords)))
    case Field(f) =>
      var w := FieldWindow(coords, fs, spacings[t]);
      (Field(SliceView(f, w)), Scale(spacings[t], Starts(w)))
  }

  /** A transform list localised to one block, with the origins to pass
      along with it. */
  datatype Localized<V> = Localized(transforms: seq<Transform<V>>, origins: seq<seq<int>>)

  /** Some field of the list has no entry in the spacing list: indexing the
      spacing list raises IndexError. */
  predicate MissingSpacing<V>(transforms: seq<Transform<V>>, spacings: seq<seq<nat>>)
  {
    exists t :: 0 <= t < |transforms| && transforms[t].Field? && t >= |spacings|
  }

  /** The localised transform list of a block, or the IndexError. Affines
      never read their spacing entry. */
  function Localize<V>(transforms: seq<Transform<V>>, spacings: seq<seq<nat>>, coords: seq<Slice>, fs: seq<nat>): (r: Result<Localized<V>>)
    requires |fs| == |coords| && FieldsHaveAxes(transforms, |coords|) && SpacingsHaveAxes(spacings, |coords|)
    ensures r.Failure? <==> MissingSpacing(transforms, spacings)
    ensures r.Success? ==> |r.value.transforms| == |transforms| == |r.value.origins|
  {
    if MissingSpacing(transforms, spacings) then Failure("IndexError: tuple index out of range")
    else
      var one := seq(|transforms|, t requires 0 <= t < |transforms| =>
        LocalizeOne(transforms, spacings, t, coords, fs));
      Success(Localized(seq(|one|, t requires 0 <= t < |one| => one[t].0), seq(|one|, t requires 0 <= t < |one| => one[t].1)))
  }

  /** The localisation loop of _transform_single_block: it walks the transform
      list, cropping each field to its window; the first field without a
      spacing entry raises. */
  method LocalizeTransforms<V>(transforms: seq<Transform<V>>, spacings: seq<seq<nat>>, coords: seq<Slice>, fs: seq<nat>)
    returns (r: Result<Localized<V>>)
    requires |fs| == |coords| && FieldsHaveAxes(transforms, |coords|) && SpacingsHaveAxes(spacings, |coords|)
    ensures r == Localize(transforms, spacings, coords, fs)
  {
    var fixOrigin := Scale(fs, Starts(coords));
    var applied: seq<Transform<V>> := [];
    var origins: seq<seq<int>> := [];
    var t := 0;
    while t < |transforms|
      invariant 0 <= t <= |transforms| && |applied| == t == |origins|
      invariant forall u :: 0 <= u < t ==> transforms[u].Field? ==> u < |spacings|
      invariant forall u :: 0 <= u < t ==>
        (applied[u], origins[u]) == LocalizeOne(transforms, spacings, u, coords, fs)
    {
      var transform := transforms[t];
      var origin := fixOrigin;
      if transform.Field? {
        if t >= |spacings| {
          assert transforms[t].Field? && t >= |spacings|;
          return Failure("IndexError: tuple index out of range");
        }
        var ts := spacings[t];
        var window := FieldWindow(coords, fs, ts);
        transform := Field(SliceView(transform.field, window));
        origin := Scale(ts, Starts(window));
      }
      applied := applied + [transform];
      origins := origins + [origin];
      t := t + 1;
    }
    assert !MissingSpacing(transforms, spacings);
    var one := seq(|transforms|, t requires 0 <= t < |transforms| => LocalizeOne(transforms, spacings, t, coords, fs));
    assert applied == seq(|one|, t requires 0 <= t < |one| => one[t].0);
    assert origins == seq(|one|, t requires 0 <= t < |one| => one[t].1);
    r := Success(Localized(applied, origins));
  }

  /** The localisation of a list with spacings for all its fields succeeds,
      keeps every affine and its block origin, and gives every field exactly
      its window. */
  lemma LocalizeContents<V>(transforms: seq<Transform<V>>, spacings: seq<seq<nat>>, coords: seq<Slice>, fs: seq<nat>, t: nat)
    requires |fs| == |coords| && FieldsHaveAxes(transforms, |coords|) && SpacingsHaveAxes(spacings, |coords|)
    requires |spacings| >= |transforms| && t < |transforms|
    ensures var r := Localize(transforms, spacings, coords, fs);
      r.Success? &&
      (transforms[t].Affine? ==> r.value.transforms[t] == transforms[t] && r.value.origins[t] == Scale(fs, Starts(coords))) &&
      (transforms[t].Field? ==>
        var w := FieldWindow(coords, fs, spacings[t]);
        r.value.transforms[t] == Field(SliceView(transforms[t].field, w)) && r.value.origins[t] == Scale(spacings[t], Starts(w)))
  {
  }

  /** The field crop of _transform_coords: the block's slices with each stop
      clipped to the field's extent on that axis. */
  function CoordsFieldCrop(block: seq<Slice>, fieldShape: seq<nat>): (c: seq<Slice>)
    requires |block| == |fieldShape|
    ensures |c| == |block|
    ensures forall a :: 0 <= a < |block| ==> c[a].start == block[a].start && c[a].stop == Min(block[a].stop, fieldShape[a])
  {
    seq(|block|, a requires 0 <= a < |block| =>
      if fieldShape[a] < block[a].stop then Slice(block[a].start, fieldShape[a]) else block[a])
  }

  /** Clipping the stops first changes nothing: numpy would have clipped
      them, so the crop selects the same part of the field as the block's own
      slices. */
  lemma CoordsFieldCropIsNumpyClip<V>(block: seq<Slice>, field: View<V>)
    requires field.Valid() && |block| == |field.shape|
    ensures SliceView(field, CoordsFieldCrop(block, field.shape)) == SliceView(field, block)
  {
    var c := CoordsFieldCrop(block, field.shape);
    assert ClipAll(c, field.shape) == ClipAll(block, field.shape);
  }

  /** The field crop of transform_partition for points whose per-axis minimum
      is lo and maximum is hi: from min(last index, floor(lo / s)) to
      ceil(hi / s) + 1. */
  function PartitionFieldCrop(lo: seq<int>, hi: seq<int>, s: seq<nat>, fieldShape: seq<nat>): (c: seq<Slice>)
    requires |lo| == |hi| == |s| == |fieldShape| && forall a :: 0 <= a < |s| ==> s[a] > 0
    ensures |c| == |lo|
    ensures forall a :: 0 <= a < |lo| ==>
      c[a] == Slice(Min(fieldShape[a] as int - 1, FloorDiv(lo[a], s[a])), CeilDiv(hi[a], s[a]) + 1)
  {
    seq(|lo|, a requires 0 <= a < |lo| =>
      Slice(Min(fieldShape[a] as int - 1, FloorDiv(lo[a], s[a])), CeilDiv(hi[a], s[a]) + 1))
  }

  /** For lo <= hi the crop is a non-empty range whose start is at most the
      field's last index, and whose stop lies past the voxel of hi. */
  lemma {:induction false} PartitionFieldCropNonEmpty(lo: seq<int>, hi: seq<int>, s: seq<nat>, fieldShape: seq<nat>)
    requires |lo| == |hi| == |s| == |fieldShape| && forall a :: 0 <= a < |s| ==> s[a] > 0
    requires forall a :: 0 <= a < |lo| ==> lo[a] <= hi[a]
    ensures var c := PartitionFieldCrop(lo, hi, s, fieldShape);
      forall a :: 0 <= a < |lo| ==>
        c[a].start < c[a].stop && c[a].start <= fieldShape[a] as int - 1 && hi[a] < c[a].stop * s[a]
  {
    var c := PartitionFieldCrop(lo, hi, s, fieldShape);
    forall a | 0 <= a < |lo|
      ensures c[a].start < c[a].stop && c[a].start <= fieldShape[a] as int - 1 && hi[a] < c[a].stop * s[a]
    {
      FloorBelowCeil(lo[a], hi[a], s[a]);
    }
  }

  /** floor(lo / s) <= ceil(hi / s) for lo <= hi, and the voxel after
      ceil(hi / s) starts past hi. */
  lemma {:induction false} FloorBelowCeil(lo: int, hi: int, s: int)
    requires s > 0 && lo <= hi
    ensures FloorDiv(lo, s) <= CeilDiv(hi, s) && hi < (CeilDiv(hi, s) + 1) * s
  {
    var f, g := FloorDiv(lo, s), CeilDiv(hi, s);
    assert (g + 1) * s == g * s + s;
    if f > g {
      MulMonotone(s, g + 1, f);
      assert false;
    }
  }

  /** The transform_spacing argument: absent, one spacing for every
      transform, or a tuple with one spacing per transform. */
  datatype SpacingArg = Unset | Single(spacing: seq<nat>) | PerTransform(spacings: seq<seq<nat>>)

  /** The spacing list actually used for n transforms: an absent spacing
      becomes the fixed image spacing, a single spacing is repeated once per
      transform, a tuple is taken as it is. */
  function SpacingList(arg: SpacingArg, fixSpacing: seq<nat>, n: nat): (r: seq<seq<nat>>)
    ensures arg.PerTransform? ==> r == arg.spacings
    ensures !arg.PerTransform? ==> |r| == n
    ensures arg.Unset? ==> forall t :: 0 <= t < n ==> r[t] == fixSpacing
    ensures arg.Single? ==> forall t :: 0 <= t < n ==> r[t] == arg.spacing
  {
    match arg
    case Unset => seq(n, _ => fixSpacing)
    case Single(s) => seq(n, _ => s)
    case PerTransform(l) => l
  }

  /** An absent or single spacing never leaves a field without a spacing. */
  lemma SpacingListCoversAll<V>(arg: SpacingArg, fixSpacing: seq<nat>, transforms: seq<Transform<V>>)
    requires !arg.PerTransform?
    ensures !MissingSpacing(transforms, SpacingList(arg, fixSpacing, |transforms|))
  {
  }
}
