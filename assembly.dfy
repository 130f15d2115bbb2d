/** Assembling a volume from block results written in place: which planned
    block owns a voxel, what the volume holds after the blocks of a set have
    been written at their canonical tiles, and _write_block. */
module BlockAssembly {
  import opened Axis
  import opened NdIndex
  import opened Arrays
  import opened BlockPlanner

  /** The position, in the block list, of the block whose tile holds voxel p. */
  function TilePosition(shape: seq<nat>, bs: seq<nat>, p: seq<int>): (pos: nat)
    requires ValidGrid(shape, bs) && InShape(p, shape)
    ensures var grid := Enumerate(GridShape(shape, bs));
      pos < |grid| && grid[pos] == TileOf(p, bs) &&
      forall u :: 0 <= u < |grid| && grid[u] == TileOf(p, bs) ==> u == pos
  {
    var n := GridShape(shape, bs);
    TileIsPlanned(shape, bs, p);
    EnumerateMembers(n, TileOf(p, bs));
    EnumerateNoDup(n);
    IndexOf(Enumerate(n), TileOf(p, bs))
  }

  /** `cells` holds `expected` on the tiles of the blocks in `done` and
      `before` everywhere else. */
  ghost predicate Assembled<T>(cells: seq<int> -> T, before: seq<int> -> T, shape: seq<nat>, bs: seq<nat>,
                               done: set<nat>, expected: seq<int> -> T)
    requires ValidGrid(shape, bs)
  {
    forall p :: cells(p) == if InShape(p, shape) && TilePosition(shape, bs, p) in done then expected(p) else before(p)
  }

  /** Writing block t's expected values over its canonical tile adds t to the
      written set, whatever was written before and in whatever order. */
  lemma {:induction false} AssembleStep<T>(c0: seq<int> -> T, c1: seq<int> -> T, before: seq<int> -> T,
                                           shape: seq<nat>, bs: seq<nat>, done: set<nat>, t: nat, expected: seq<int> -> T)
    requires ValidGrid(shape, bs) && t < |Enumerate(GridShape(shape, bs))|
    requires Assembled(c0, before, shape, bs, done, expected)
    requires forall p ::
      c1(p) == if InSlices(p, CanonicalBlock(shape, bs, Enumerate(GridShape(shape, bs))[t])) then expected(p) else c0(p)
    ensures Assembled(c1, before, shape, bs, done + {t}, expected)
  {
    var grid := Enumerate(GridShape(shape, bs));
    EnumerateInRange(GridShape(shape, bs));
    forall p
      ensures c1(p) == if InShape(p, shape) && TilePosition(shape, bs, p) in done + {t} then expected(p) else before(p)
    {
      TileMembership(shape, bs, grid[t], p);
    }
  }

  /** Once every block is written, the volume holds `expected` inside the
      shape and `before` outside it. */
  lemma AssembledComplete<T>(cells: seq<int> -> T, before: seq<int> -> T, shape: seq<nat>, bs: seq<nat>,
                             done: set<nat>, expected: seq<int> -> T)
    requires ValidGrid(shape, bs) && Assembled(cells, before, shape, bs, done, expected)
    requires forall u :: 0 <= u < |Enumerate(GridShape(shape, bs))| ==> u in done
    ensures forall p :: cells(p) == if InShape(p, shape) then expected(p) else before(p)
  {
  }

  /** _write_block: write the block at `coords` when there is an output array,
      and hand the coordinates back unchanged either way. */
  method WriteBlock<T>(coords: seq<Slice>, data: View<T>, output: Volume?<T>) returns (r: seq<Slice>)
    requires output != null ==> data.Valid() && |coords| == |output.shape| == |data.shape|
    requires output != null ==> forall k :: 0 <= k < |coords| ==>
      0 <= coords[k].start <= coords[k].stop <= output.shape[k] && data.shape[k] == coords[k].Length()
    modifies output
    ensures r == coords
    ensures output != null ==> forall p ::
      output.cells(p) == if InSlices(p, coords) then data.At(Local(p, Starts(coords))) else old(output.cells)(p)
  {
    if output != null {
      output.Write(coords, data);
    }
    r := coords;
  }
}
