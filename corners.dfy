/** The part of the moving image a block needs: the 2^d corners of the fixed
    block are mapped into the moving image, clipped to it, and the moving
    slices run from the per-axis minimum to the per-axis maximum of the
    mapped corners. */
module MovingBox {
  import opened Axis
  import opened NdIndex

  /** (x,) * n */
  function Repeat(x: nat, n: nat): (r: seq<nat>)
    ensures |r| == n && forall k :: 0 <= k < n ==> r[k] == x
  {
    seq(n, _ => x)
  }

  function Pow2(n: nat): nat
  {
    if n == 0 then 1 else 2 * Pow2(n - 1)
  }

  lemma {:induction false} ProductRepeatTwo(n: nat)
    ensures Product(Repeat(2, n)) == Pow2(n)
  {
    if n > 0 {
      assert Repeat(2, n)[1..] == Repeat(2, n - 1);
      ProductRepeatTwo(n - 1);
    }
  }

  /** The corner of the block that a 0/1 mask selects: stop - 1 (the last
      voxel) on the axes where the mask is set, start on the others. */
  function Corner(block: seq<Slice>, mask: seq<nat>): (c: seq<int>)
    requires |mask| == |block|
    ensures |c| == |block|
    ensures forall a :: 0 <= a < |block| ==> c[a] == (if mask[a] != 0 then block[a].stop - 1 else block[a].start)
  {
    seq(|block|, a requires 0 <= a < |block| => if mask[a] != 0 then block[a].stop - 1 else block[a].start)
  }

  /** The masks of itertools.product([0, 1], repeat=d), in its order. */
  function Masks(d: nat): (r: seq<seq<nat>>)
    ensures forall t :: 0 <= t < |r| ==> |r[t]| == d
  {
    Enumerate(Repeat(2, d))
  }

  /** The block's corners, one per mask, in the order of the masks. */
  function Corners(block: seq<Slice>): (r: seq<seq<int>>)
    ensures |r| == |Masks(|block|)|
    ensures forall t :: 0 <= t < |r| ==> r[t] == Corner(block, Masks(|block|)[t])
  {
    var masks := Masks(|block|);
    seq(|masks|, t requires 0 <= t < |masks| => Corner(block, masks[t]))
  }

  /** The corner loop of _transform_single_block. */
  method BlockCorners(block: seq<Slice>) returns (corners: seq<seq<int>>)
    ensures corners == Corners(block)
  {
    var masks := Masks(|block|);
    corners := [];
    var t := 0;
    while t < |masks|
      invariant 0 <= t <= |masks| && |corners| == t
      invariant forall u :: 0 <= u < t ==> corners[u] == Corner(block, masks[u])
    {
      var mask := masks[t];
      var a := seq(|block|, k requires 0 <= k < |block| => if mask[k] != 0 then block[k].stop - 1 else block[k].start);
      corners := corners + [a];
      t := t + 1;
    }
  }

  /** There are exactly 2^d corners; each coordinate of each is the start or
      the last voxel of the block on that axis; and every such combination
      occurs exactly once. */
  lemma CornersAreTheCorners(block: seq<Slice>, mask: seq<nat>)
    ensures |Corners(block)| == Pow2(|block|)
    ensures forall t, a :: 0 <= t < |Corners(block)| && 0 <= a < |block| ==>
      Corners(block)[t][a] == block[a].start || Corners(block)[t][a] == block[a].stop - 1
    ensures InRange(mask, Repeat(2, |block|)) ==>
      exists t :: 0 <= t < |Corners(block)| && Corners(block)[t] == Corner(block, mask) && Masks(|block|)[t] == mask
  {
    var d := |block|;
    EnumerateLength(Repeat(2, d));
    ProductRepeatTwo(d);
    EnumerateMembers(Repeat(2, d), mask);
    if InRange(mask, Repeat(2, d)) {
      var t := IndexOf(Masks(d), mask);
      assert Corners(block)[t] == Corner(block, mask);
    }
  }

  /** np.minimum(movShape, np.maximum(0, p)): a mapped corner clipped into
      [0, movShape], axis by axis. */
  function ClipPoint(p: seq<int>, movShape: seq<nat>): (r: seq<int>)
    requires |p| == |movShape|
    ensures |r| == |p| && forall a :: 0 <= a < |p| ==> r[a] == Min(movShape[a], Max(0, p[a]))
  {
    seq(|p|, a requires 0 <= a < |p| => Min(movShape[a], Max(0, p[a])))
  }

  /** Every point has coordinates on the axes of movShape. */
  predicate PointsIn(pts: seq<seq<int>>, d: nat)
  {
    forall t :: 0 <= t < |pts| ==> |pts[t]| == d
  }

  function ClipPoints(pts: seq<seq<int>>, movShape: seq<nat>): (r: seq<seq<int>>)
    requires PointsIn(pts, |movShape|)
    ensures |r| == |pts| && forall t :: 0 <= t < |pts| ==> r[t] == ClipPoint(pts[t], movShape)
  {
    seq(|pts|, t requires 0 <= t < |pts| => ClipPoint(pts[t], movShape))
  }

  /** Some point has value v on axis a. */
  predicate Attains(pts: seq<seq<int>>, a: nat, v: int)
  {
    exists t :: 0 <= t < |pts| && a < |pts[t]| && pts[t][a] == v
  }

  /** np.min(pts, axis=0)[a]: a lower bound of axis a that some point attains. */
  function MinAt(pts: seq<seq<int>>, a: nat): (m: int)
    requires |pts| > 0 && forall t :: 0 <= t < |pts| ==> a < |pts[t]|
    ensures forall t :: 0 <= t < |pts| ==> m <= pts[t][a]
    ensures Attains(pts, a, m)
  {
    if |pts| == 1 then pts[0][a]
    else
      var rest := MinAt(pts[1..], a);
      assert forall t :: 1 <= t < |pts| ==> pts[t] == pts[1..][t - 1];
      Min(pts[0][a], rest)
  }

  /** np.max(pts, axis=0)[a]: an upper bound of axis a that some point attains. */
  function MaxAt(pts: seq<seq<int>>, a: nat): (m: int)
    requires |pts| > 0 && forall t :: 0 <= t < |pts| ==> a < |pts[t]|
    ensures forall t :: 0 <= t < |pts| ==> pts[t][a] <= m
    ensures Attains(pts, a, m)
  {
    if |pts| == 1 then pts[0][a]
    else
      var rest := MaxAt(pts[1..], a);
      assert forall t :: 1 <= t < |pts| ==> pts[t] == pts[1..][t - 1];
      Max(pts[0][a], rest)
  }

  /** Clipped corners lie in [0, movShape], axis by axis. */
  lemma ClippedInImage(mapped: seq<seq<int>>, movShape: seq<nat>)
    requires PointsIn(mapped, |movShape|)
    ensures var clipped := ClipPoints(mapped, movShape);
      PointsIn(clipped, |movShape|) &&
      forall t, a :: 0 <= t < |clipped| && 0 <= a < |movShape| ==> 0 <= clipped[t][a] <= movShape[a]
  {
  }

  /** The moving slice on axis a as written: from the minimum to the maximum
      of the clipped corners, the maximum taken as an exclusive stop. */
  function MovingAxis(clipped: seq<seq<int>>, movShape: seq<nat>, a: nat): (r: Slice)
    requires |clipped| > 0 && PointsIn(clipped, |movShape|) && a < |movShape|
    requires forall t :: 0 <= t < |clipped| ==> 0 <= clipped[t][a] <= movShape[a]
    ensures 0 <= r.start <= r.stop <= movShape[a]
    ensures forall t :: 0 <= t < |clipped| ==> r.start <= clipped[t][a] <= r.stop
    ensures Attains(clipped, a, r.start) && Attains(clipped, a, r.stop)
  {
    var lo, hi := MinAt(clipped, a), MaxAt(clipped, a);
    assert lo <= clipped[0][a] <= hi;
    var t :| 0 <= t < |clipped| && a < |clipped[t]| && clipped[t][a] == lo;
    var u :| 0 <= u < |clipped| && a < |clipped[u]| && clipped[u][a] == hi;
    Slice(lo, hi)
  }

  /** The moving slices as written, MovingAxis on every axis. They lie inside
      the moving image, and every clipped corner lies in [start, stop]
      (closed) with both ends attained. */
  function MovingSlices(mapped: seq<seq<int>>, movShape: seq<nat>): (s: seq<Slice>)
    requires |mapped| > 0 && PointsIn(mapped, |movShape|)
    ensures |s| == |movShape|
    ensures forall a :: 0 <= a < |s| ==> 0 <= s[a].start <= s[a].stop <= movShape[a]
    ensures var clipped := ClipPoints(mapped, movShape);
      forall t, a :: 0 <= t < |clipped| && 0 <= a < |s| ==> s[a].start <= clipped[t][a] <= s[a].stop
    ensures var clipped := ClipPoints(mapped, movShape);
      forall a :: 0 <= a < |s| ==> Attains(clipped, a, s[a].start) && Attains(clipped, a, s[a].stop)
  {
    var clipped := ClipPoints(mapped, movShape);
    ClippedInImage(mapped, movShape);
    seq(|movShape|, a requires 0 <= a < |movShape| => MovingAxis(clipped, movShape, a))
  }

  /** The moving slices as evidently intended: the stop is one past the
      maximum (clipped to the image), so the slices contain every clipped
      corner that is a voxel of the moving image. */
  function MovingSlicesInclusive(mapped: seq<seq<int>>, movShape: seq<nat>): (s: seq<Slice>)
    requires |mapped| > 0 && PointsIn(mapped, |movShape|)
    ensures |s| == |movShape|
    ensures forall a :: 0 <= a < |s| ==> 0 <= s[a].start <= s[a].stop <= movShape[a]
    ensures var clipped := ClipPoints(mapped, movShape);
      forall t, a :: 0 <= t < |clipped| && 0 <= a < |s| && clipped[t][a] < movShape[a] ==> s[a].Contains(clipped[t][a])
  {
    var clipped := ClipPoints(mapped, movShape);
    ClippedInImage(mapped, movShape);
    seq(|movShape|, a requires 0 <= a < |movShape| => InclusiveAxis(clipped, movShape, a))
  }

  /** MovingAxis with the stop moved one past the maximum, clipped to the
      image: it holds every clipped corner that is a voxel on axis a. */
  function InclusiveAxis(clipped: seq<seq<int>>, movShape: seq<nat>, a: nat): (r: Slice)
    requires |clipped| > 0 && PointsIn(clipped, |movShape|) && a < |movShape|
    requires forall t :: 0 <= t < |clipped| ==> 0 <= clipped[t][a] <= movShape[a]
    ensures 0 <= r.start <= r.stop <= movShape[a]
    ensures forall t :: 0 <= t < |clipped| && clipped[t][a] < movShape[a] ==> r.Contains(clipped[t][a])
  {
    var m := MovingAxis(clipped, movShape, a);
    Slice(m.start, Min(movShape[a], m.stop + 1))
  }

  /** The masks of one axis: [0] then [1]. */
  lemma MasksOfOneAxis()
    ensures Masks(1) == [[0], [1]]
  {
    assert Repeat(2, 1) == [2];
    assert [2][1..] == [];
    assert Enumerate([2]) == Layers(2, [[]]);
    assert Prepend(0, [[]]) == [[0]] by { assert Prepend(0, [[]])[0] == [0] + [] == [0]; }
    assert Prepend(1, [[]]) == [[1]] by { assert Prepend(1, [[]])[0] == [1] + [] == [1]; }
    assert Layers(1, [[]]) == Layers(0, [[]]) + Prepend(0, [[]]) == [[0]];
    assert Layers(2, [[]]) == Layers(1, [[]]) + Prepend(1, [[]]) == [[0], [1]];
  }

  /** The two corners of the one-axis block [64, 256). */
  lemma ExampleCorners()
    ensures Corners([Slice(64, 256)]) == [[64], [255]]
  {
    MasksOfOneAxis();
    var c := Corners([Slice(64, 256)]);
    assert |c| == 2;
    assert c[0] == Corner([Slice(64, 256)], [0]) == [64];
    assert c[1] == Corner([Slice(64, 256)], [1]) == [255];
  }

  /** The slice between the corners 64 and 255 of a 256-voxel axis. */
  lemma ExampleAxis()
    ensures ClipPoints([[64], [255]], [256]) == [[64], [255]]
    ensures MovingAxis([[64], [255]], [256], 0) == Slice(64, 255)
  {
    var clipped := ClipPoints([[64], [255]], [256]);
    assert clipped[0] == [64] && clipped[1] == [255];
    assert clipped == [[64], [255]];
    assert MinAt([[64], [255]], 0) == 64 by {
      assert [[64], [255]][1..] == [[255]];
    }
    assert MaxAt([[64], [255]], 0) == 255 by {
      assert [[64], [255]][1..] == [[255]];
    }
  }

  /** As written, the last voxel is left out: with an identity mapping the
      block [64, 256) of a 256-voxel axis has corners 64 and 255, and the
      moving slice [64, 255) misses voxel 255 although it lies inside the
      moving image; the inclusive slice [64, 256) keeps it. */
  lemma MovingSlicesDropLastVoxel()
    ensures Corners([Slice(64, 256)]) == [[64], [255]]
    ensures MovingSlices([[64], [255]], [256]) == [Slice(64, 255)]
    ensures !Slice(64, 255).Contains(255)
    ensures MovingSlicesInclusive([[64], [255]], [256]) == [Slice(64, 256)]
  {
    ExampleCorners();
    ExampleAxis();
    assert MovingSlices([[64], [255]], [256])[0] == Slice(64, 255);
    assert MovingSlicesInclusive([[64], [255]], [256])[0] == Slice(64, 256);
  }
}
