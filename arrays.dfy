/** Dense n-dimensional arrays as the source uses them through numpy and zarr.
    A `View` is what indexing an array with a tuple of slices returns: the same
    data seen from a new origin with a new shape, so slicing never copies. A
    `Volume` is an array that is written in place, block by block
    (`output[block_coords] = block_data`). */
module Arrays {
  import opened Axis

  /** Element-wise a + b, over the indices of b. */
  function Add(a: seq<int>, b: seq<int>): (r: seq<int>)
    ensures |r| == |b|
    ensures forall k :: 0 <= k < |b| ==> r[k] == (if k < |a| then a[k] else 0) + b[k]
  {
    seq(|b|, k requires 0 <= k < |b| => (if k < |a| then a[k] else 0) + b[k])
  }

  /** The start of each slice. */
  function Starts(s: seq<Slice>): (r: seq<int>)
    ensures |r| == |s| && forall k :: 0 <= k < |s| ==> r[k] == s[k].start
  {
    seq(|s|, k requires 0 <= k < |s| => s[k].start)
  }

  /** The length of each slice. */
  function Lengths(s: seq<Slice>): (r: seq<int>)
    ensures |r| == |s| && forall k :: 0 <= k < |s| ==> r[k] == s[k].stop - s[k].start
  {
    seq(|s|, k requires 0 <= k < |s| => s[k].stop - s[k].start)
  }

  /** p - origin, element-wise: the local index of global position p in an
      array whose element 0 sits at `origin`. */
  function Local(p: seq<int>, origin: seq<int>): (r: seq<int>)
    ensures |r| == |p|
    ensures forall k :: 0 <= k < |p| ==> r[k] == p[k] - (if k < |origin| then origin[k] else 0)
  {
    seq(|p|, k requires 0 <= k < |p| => p[k] - (if k < |origin| then origin[k] else 0))
  }

  /** p lies inside the box that the slices describe, one slice per axis. */
  predicate InSlices(p: seq<int>, s: seq<Slice>)
  {
    |p| == |s| && forall k :: 0 <= k < |s| ==> s[k].Contains(p[k])
  }

  /** idx is a valid index of an array of this shape. */
  predicate InShape(idx: seq<int>, shape: seq<nat>)
  {
    |idx| == |shape| && forall k :: 0 <= k < |shape| ==> 0 <= idx[k] < shape[k]
  }

  /** An array, or a view of one: element idx (0 <= idx < shape) is data(origin + idx). */
  datatype View<T> = View(data: seq<int> -> T, origin: seq<int>, shape: seq<nat>)
  {
    predicate Valid() { |origin| == |shape| }

    function At(idx: seq<int>): T { data(Add(origin, idx)) }
  }

  /** A whole array whose element idx is data(idx). */
  function Whole<T>(data: seq<int> -> T, shape: seq<nat>): (v: View<T>)
    ensures v.Valid() && v.shape == shape
    ensures forall idx :: |idx| == |shape| ==> v.At(idx) == data(idx)
  {
    var v := View(data, seq(|shape|, k => 0), shape);
    assert forall idx :: |idx| == |shape| ==> Add(v.origin, idx) == idx;
    v
  }

  /** numpy's normalisation of one slice bound on an axis of length len: a
      negative bound counts from the end, and the result is clipped to
      [0, len]. */
  function ClipBound(x: int, len: nat): (r: nat)
    ensures r <= len
    ensures 0 <= x ==> r == Min(x, len)
  {
    if x < 0 then Max(0, x + len) else Min(x, len)
  }

  /** numpy's a[lo:hi] on one axis: both bounds are normalised and an
      inverted range is empty. */
  function ClipSlice(s: Slice, len: nat): (r: Slice)
    ensures 0 <= r.start <= r.stop <= len
    ensures r.start == ClipBound(s.start, len) && r.stop == Max(r.start, ClipBound(s.stop, len))
  {
    var lo := ClipBound(s.start, len);
    Slice(lo, Max(lo, ClipBound(s.stop, len)))
  }

  /** numpy's v[tuple(slices)], one slice per axis:
      the view moves its origin to the clipped starts and takes the clipped
      lengths as its shape. */
  function SliceView<T>(v: View<T>, slices: seq<Slice>): (r: View<T>)
    requires v.Valid() && |slices| == |v.shape|
    ensures r.Valid() && r.data == v.data && |r.shape| == |v.shape|
    ensures forall k :: 0 <= k < |slices| ==>
      var c := ClipSlice(slices[k], v.shape[k]);
      r.origin[k] == v.origin[k] + c.start && r.shape[k] == c.stop - c.start
  {
    var c := ClipAll(slices, v.shape);
    View(v.data, Add(v.origin, Starts(c)), seq(|c|, k requires 0 <= k < |c| => c[k].stop - c[k].start))
  }

  /** ClipSlice on every axis. */
  function ClipAll(slices: seq<Slice>, shape: seq<nat>): (c: seq<Slice>)
    requires |slices| == |shape|
    ensures |c| == |slices| && forall k :: 0 <= k < |c| ==> c[k] == ClipSlice(slices[k], shape[k])
  {
    seq(|slices|, k requires 0 <= k < |slices| => ClipSlice(slices[k], shape[k]))
  }

  /** A slice inside [0, len) is left unchanged by numpy's clipping. */
  lemma ClipInside(s: Slice, len: nat)
    requires 0 <= s.start <= s.stop <= len
    ensures ClipSlice(s, len) == s
  {
  }

  /** An n-dimensional array that blocks are written into in place: an output
      zarr array, or the in-memory array that collects block results. Only the
      positions inside `shape` are meaningful. */
  class Volume<T> {
    const shape: seq<nat>
    var cells: seq<int> -> T

    /** np.zeros / np.empty: every position holds `fill`. */
    constructor Filled(shape: seq<nat>, fill: T)
      ensures this.shape == shape
      ensures forall p :: cells(p) == fill
    {
      this.shape := shape;
      cells := p => fill;
    }

    /** output[slices] = block: the box of positions the slices describe gets
        the block's elements, every other position keeps its value. numpy
        requires the block to have exactly the box's shape. */
    method Write(slices: seq<Slice>, block: View<T>)
      requires block.Valid() && |slices| == |shape| == |block.shape|
      requires forall k :: 0 <= k < |slices| ==>
        0 <= slices[k].start <= slices[k].stop <= shape[k] && block.shape[k] == slices[k].Length()
      modifies this
      ensures forall p ::
        cells(p) == (if InSlices(p, slices) then block.At(Local(p, Starts(slices))) else old(cells)(p))
    {
      var previous := cells;
      cells := p => if InSlices(p, slices) then block.At(Local(p, Starts(slices))) else previous(p);
    }
  }
}
