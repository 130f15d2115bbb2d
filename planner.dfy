/** The block planner: how many blocks a volume is cut into, and the extended
    (overlap) and canonical slices of each block, in np.ndindex order. The
    per-axis rules are those of module Axis; this module lifts them to d axes
    and proves that the canonical tiles of a plan tile the volume. */
module BlockPlanner {
  import opened Axis
  import opened NdIndex
  import opened Arrays

  /** A volume shape with one positive block size per axis. */
  predicate ValidGrid(shape: seq<nat>, bs: seq<nat>)
  {
    |shape| == |bs| && forall a :: 0 <= a < |bs| ==> bs[a] > 0
  }

  /** nblocks = np.ceil(shape / blocksize), axis by axis. */
  function GridShape(shape: seq<nat>, bs: seq<nat>): (n: seq<nat>)
    requires ValidGrid(shape, bs)
    ensures |n| == |shape|
    ensures forall a :: 0 <= a < |n| ==> n[a] == NumBlocks(shape[a], bs[a])
  {
    seq(|shape|, a requires 0 <= a < |shape| => NumBlocks(shape[a], bs[a]))
  }

  /** The extended slices of the block with multi-index m. */
  function ExtendedBlock(shape: seq<nat>, bs: seq<nat>, ov: seq<nat>, m: seq<nat>): (b: seq<Slice>)
    requires |bs| == |shape| && |ov| == |shape| && |m| == |shape|
    ensures |b| == |m|
    ensures forall a :: 0 <= a < |m| ==> b[a] == ExtendedSlice(shape[a], bs[a], ov[a], m[a])
  {
    seq(|m|, a requires 0 <= a < |m| => ExtendedSlice(shape[a], bs[a], ov[a], m[a]))
  }

  /** The canonical slices (the tile) of the block with multi-index m. */
  function CanonicalBlock(shape: seq<nat>, bs: seq<nat>, m: seq<nat>): (b: seq<Slice>)
    requires |bs| == |shape| && |m| == |shape|
    ensures |b| == |m|
    ensures forall a :: 0 <= a < |m| ==> b[a] == CanonicalSlice(shape[a], bs[a], m[a])
  {
    seq(|m|, a requires 0 <= a < |m| => CanonicalSlice(shape[a], bs[a], m[a]))
  }

  /** The multi-index of the block whose tile holds voxel p: p // blocksize. */
  function TileOf(p: seq<int>, bs: seq<nat>): (m: seq<nat>)
    requires |p| == |bs| && forall a :: 0 <= a < |p| ==> bs[a] > 0 && p[a] >= 0
    ensures |m| == |p|
    ensures forall a :: 0 <= a < |p| ==> m[a] == FloorDiv(p[a], bs[a])
  {
    seq(|p|, a requires 0 <= a < |p| => FloorDiv(p[a], bs[a]))
  }

  /** The block list of distributed_apply_transform and of
      distributed_invert_displacement_vector_field: for every multi-index of
      the grid, in np.ndindex order, start = blocksize * index - overlap and
      stop = start + blocksize + 2 * overlap, clipped to [0, shape). */
  method PlanExtendedBlocks(shape: seq<nat>, bs: seq<nat>, ov: seq<nat>) returns (blocks: seq<seq<Slice>>)
    requires ValidGrid(shape, bs) && |ov| == |shape|
    ensures var grid := Enumerate(GridShape(shape, bs));
      |blocks| == |grid| &&
      forall t :: 0 <= t < |grid| ==> blocks[t] == ExtendedBlock(shape, bs, ov, grid[t])
  {
    var nblocks := GridShape(shape, bs);
    var grid := Enumerate(nblocks);
    blocks := [];
    var t := 0;
    while t < |grid|
      invariant 0 <= t <= |grid| && |blocks| == t
      invariant forall u :: 0 <= u < t ==> blocks[u] == ExtendedBlock(shape, bs, ov, grid[u])
    {
      var coords := PlannedBlock(shape, bs, ov, grid[t]);
      blocks := blocks + [coords];
      t := t + 1;
    }
  }

  /** One block of the list: its start and stop vectors, clipped. */
  method PlannedBlock(shape: seq<nat>, bs: seq<nat>, ov: seq<nat>, m: seq<nat>) returns (coords: seq<Slice>)
    requires |bs| == |shape| == |ov| == |m|
    ensures coords == ExtendedBlock(shape, bs, ov, m)
  {
    var start := seq(|m|, a requires 0 <= a < |m| => bs[a] * m[a] - ov[a] as int);
    var stop := seq(|m|, a requires 0 <= a < |m| => start[a] + bs[a] + 2 * ov[a]);
    coords := seq(|m|, a requires 0 <= a < |m| => Slice(Max(0, start[a]), Min(shape[a], stop[a])));
    assert coords == ExtendedBlock(shape, bs, ov, m);
  }

  /** The overlap of the piecewise inversion, round(0.25 * blocksize) per axis. */
  function InversionOverlap(bs: seq<nat>): (ov: seq<nat>)
    ensures |ov| == |bs| && forall a :: 0 <= a < |bs| ==> ov[a] == QuarterOverlap(bs[a])
  {
    seq(|bs|, a requires 0 <= a < |bs| => QuarterOverlap(bs[a]))
  }

  /** The two block lists of the piecewise inversion, in np.ndindex order: the
      canonical slices [bs*i, min(shape, bs*i + bs)) and the extended slices
      with overlap round(0.25 * bs). `shape` is the field's spatial shape
      (its shape without the trailing vector axis). */
  method PlanInversionBlocks(shape: seq<nat>, bs: seq<nat>) returns (coords: seq<seq<Slice>>, coordsOverlaps: seq<seq<Slice>>)
    requires ValidGrid(shape, bs)
    ensures var grid, ov := Enumerate(GridShape(shape, bs)), InversionOverlap(bs);
      |coords| == |grid| == |coordsOverlaps| &&
      forall t :: 0 <= t < |grid| ==>
        coords[t] == CanonicalBlock(shape, bs, grid[t]) && coordsOverlaps[t] == ExtendedBlock(shape, bs, ov, grid[t])
  {
    var overlap := InversionOverlap(bs);
    var nblocks := GridShape(shape, bs);
    var grid := Enumerate(nblocks);
    coords, coordsOverlaps := [], [];
    var t := 0;
    while t < |grid|
      invariant 0 <= t <= |grid| && |coords| == t == |coordsOverlaps|
      invariant forall u :: 0 <= u < t ==>
        coords[u] == CanonicalBlock(shape, bs, grid[u]) && coordsOverlaps[u] == ExtendedBlock(shape, bs, overlap, grid[u])
    {
      var c, cOl := InversionBlock(shape, bs, overlap, grid[t]);
      coords, coordsOverlaps := coords + [c], coordsOverlaps + [cOl];
      t := t + 1;
    }
  }

  /** The two slice lists of the block with multi-index m, as the list
      comprehensions of the piecewise inversion build them. */
  method InversionBlock(shape: seq<nat>, bs: seq<nat>, overlap: seq<nat>, m: seq<nat>) returns (c: seq<Slice>, cOl: seq<Slice>)
    requires |bs| == |shape| == |overlap| == |m|
    ensures c == CanonicalBlock(shape, bs, m) && cOl == ExtendedBlock(shape, bs, overlap, m)
  {
    c := seq(|m|, a requires 0 <= a < |m| =>
      var start := bs[a] * m[a];
      Slice(start, Min(shape[a], start + bs[a])));
    cOl := seq(|m|, a requires 0 <= a < |m| =>
      var start: int := bs[a] * m[a];
      Slice(Max(0, start - overlap[a]), Min(shape[a], start + bs[a] + overlap[a])));
    assert c == CanonicalBlock(shape, bs, m);
    assert cOl == ExtendedBlock(shape, bs, overlap, m);
  }

  /** Every planned block's extended slices lie inside the volume and contain
      its canonical tile, axis by axis. */
  lemma ExtendedBlockContainsTile(shape: seq<nat>, bs: seq<nat>, ov: seq<nat>, m: seq<nat>)
    requires ValidGrid(shape, bs) && |ov| == |shape| && InRange(m, GridShape(shape, bs))
    ensures var e, c := ExtendedBlock(shape, bs, ov, m), CanonicalBlock(shape, bs, m);
      forall a :: 0 <= a < |m| ==>
        0 <= e[a].start <= c[a].start < c[a].stop <= e[a].stop <= shape[a]
  {
    forall a | 0 <= a < |m|
      ensures var e, c := ExtendedSlice(shape[a], bs[a], ov[a], m[a]), CanonicalSlice(shape[a], bs[a], m[a]);
        0 <= e.start <= c.start < c.stop <= e.stop <= shape[a]
    {
      ExtendedContainsCanonical(shape[a], bs[a], ov[a], m[a]);
    }
  }

  /** Voxel p is in the tile of planned block m exactly when p is in the
      volume and m is p's tile index. */
  lemma {:induction false} TileMembership(shape: seq<nat>, bs: seq<nat>, m: seq<nat>, p: seq<int>)
    requires ValidGrid(shape, bs) && InRange(m, GridShape(shape, bs))
    ensures InSlices(p, CanonicalBlock(shape, bs, m)) <==> InShape(p, shape) && TileOf(p, bs) == m
  {
    var c := CanonicalBlock(shape, bs, m);
    if |p| == |shape| {
      forall a | 0 <= a < |p|
        ensures c[a].Contains(p[a]) <==> (0 <= p[a] < shape[a] && m[a] == FloorDiv(p[a], bs[a]))
      {
        CanonicalOwner(shape[a], bs[a], p[a], m[a]);
      }
      if InSlices(p, c) {
        assert InShape(p, shape);
        assert TileOf(p, bs) == m;
      }
    }
  }

  /** The tile index of a voxel of the volume is a multi-index of the grid. */
  lemma TileIsPlanned(shape: seq<nat>, bs: seq<nat>, p: seq<int>)
    requires ValidGrid(shape, bs) && InShape(p, shape)
    ensures InRange(TileOf(p, bs), GridShape(shape, bs))
  {
    forall a | 0 <= a < |p|
      ensures FloorDiv(p[a], bs[a]) < NumBlocks(shape[a], bs[a])
    {
      OwnerIsPlanned(shape[a], bs[a], p[a]);
    }
  }

  /** The canonical tiles of a plan tile the volume: a voxel lies in some
      block's tile exactly when it is inside the volume, and no two blocks of
      the plan share a voxel. */
  lemma CanonicalTilesPartition(shape: seq<nat>, bs: seq<nat>, p: seq<int>)
    requires ValidGrid(shape, bs)
    ensures var grid := Enumerate(GridShape(shape, bs));
      InShape(p, shape) <==> exists t :: 0 <= t < |grid| && InSlices(p, CanonicalBlock(shape, bs, grid[t]))
    ensures var grid := Enumerate(GridShape(shape, bs));
      forall t, u ::
        (0 <= t < |grid| && 0 <= u < |grid| &&
         InSlices(p, CanonicalBlock(shape, bs, grid[t])) && InSlices(p, CanonicalBlock(shape, bs, grid[u]))) ==> t == u
  {
    var n := GridShape(shape, bs);
    var grid := Enumerate(n);
    EnumerateInRange(n);
    EnumerateNoDup(n);
    forall t | 0 <= t < |grid|
      ensures InSlices(p, CanonicalBlock(shape, bs, grid[t])) <==> InShape(p, shape) && TileOf(p, bs) == grid[t]
    {
      TileMembership(shape, bs, grid[t], p);
    }
    if InShape(p, shape) {
      TileIsPlanned(shape, bs, p);
      EnumerateMembers(n, TileOf(p, bs));
      var t := IndexOf(grid, TileOf(p, bs));
      assert InSlices(p, CanonicalBlock(shape, bs, grid[t]));
    }
  }
}
