/** The geometry of one axis of a blocked volume: half-open slices, block
    counts, the extended (overlap) and canonical slice of block i, and the
    rule that crops an extended block back to its placement. Every block rule
    of the system is applied axis by axis, so the d-axis statements in
    BlockPlanner are lifted from the facts proved here. */
module Axis {

  /** A half-open integer range [start, stop), like Python's slice(start, stop). */
  datatype Slice = Slice(start: int, stop: int)
  {
    function Length(): int { stop - start }
    predicate Contains(x: int) { start <= x < stop }
  }

  function Min(a: int, b: int): int { if a <= b then a else b }
  function Max(a: int, b: int): int { if a >= b then a else b }

  /** s[::-1]. */
  function Reverse<T>(s: seq<T>): (r: seq<T>)
    ensures |r| == |s| && forall a :: 0 <= a < |s| ==> r[a] == s[|s| - 1 - a]
  {
    seq(|s|, a requires 0 <= a < |s| => s[|s| - 1 - a])
  }

  /** np.floor(a / b) for a positive divisor. */
  function FloorDiv(a: int, b: int): (q: int)
    requires b > 0
    ensures q * b <= a < q * b + b
    ensures a >= 0 ==> q >= 0
  {
    a / b
  }

  /** np.ceil(a / b) for a positive divisor. */
  function CeilDiv(a: int, b: int): (q: int)
    requires b > 0
    ensures q * b - b < a <= q * b
  {
    var r := (-a) / b;
    assert r * b <= -a < r * b + b;
    -r
  }

  /** x lies in [bs*i, bs*i + bs) exactly when i is the floor quotient of x by bs. */
  lemma {:induction false} CellIsQuotient(x: int, bs: int, i: int)
    requires bs > 0
    ensures bs * i <= x < bs * i + bs <==> i == FloorDiv(x, bs)
  {
    var q := FloorDiv(x, bs);
    if i < q {
      assert i + 1 <= q;
      MulMonotone(bs, i + 1, q);
      assert bs * i + bs == bs * (i + 1);
    } else if i > q {
      assert q + 1 <= i;
      MulMonotone(bs, q + 1, i);
      assert bs * q + bs == bs * (q + 1);
    }
  }

  lemma MulMonotone(k: int, a: int, b: int)
    requires k >= 0 && a <= b
    ensures k * a <= k * b
  {
    assert k * b - k * a == k * (b - a);
  }

  /** nblocks = ceil(shape / blocksize) on one axis. */
  function NumBlocks(shape: nat, bs: nat): (n: nat)
    requires bs > 0
    ensures (n - 1) * bs < shape <= n * bs || (shape == 0 && n == 0)
  {
    var q := CeilDiv(shape, bs);
    assert q * bs - bs < shape <= q * bs;
    if shape == 0 then
      assert q < 1;
      0
    else
      assert q >= 1;
      assert (q - 1) * bs == q * bs - bs;
      q
  }

  /** The extended slice of the block whose tile starts at t: the tile widened
      by ov on both sides and clipped to [0, shape). */
  function ExtendedFrom(shape: nat, bs: nat, ov: nat, t: int): Slice
  {
    var lo := t - ov;
    Slice(Max(0, lo), Min(shape, lo + bs + 2 * ov))
  }

  /** The extended slice of block i. */
  function ExtendedSlice(shape: nat, bs: nat, ov: nat, i: nat): Slice
  {
    ExtendedFrom(shape, bs, ov, bs * i)
  }

  /** The canonical tile of block i: [bs*i, min(shape, bs*i + bs)). */
  function CanonicalSlice(shape: nat, bs: nat, i: nat): Slice
  {
    Slice(bs * i, Min(shape, bs * i + bs))
  }

  /** Where the tile of a planned block starts, in linear terms. */
  lemma {:induction false} TileStart(shape: nat, bs: nat, i: nat)
    requires bs > 0 && i < NumBlocks(shape, bs)
    ensures 0 <= bs * i < shape
    ensures bs * i == 0 || bs * i >= bs
    ensures i >= 1 ==> bs * i >= bs
    ensures i >= 2 ==> bs * i >= 2 * bs
  {
    var n := NumBlocks(shape, bs);
    MulMonotone(bs, i, n - 1);
    assert bs * (n - 1) == (n - 1) * bs;
    if i == 0 {
      assert bs * i == 0;
    }
    if i >= 1 {
      MulMonotone(bs, 1, i);
    }
    if i >= 2 {
      MulMonotone(bs, 2, i);
    }
  }

  /** Every planned block (i < nblocks) has an extended slice inside the volume
      that contains its canonical tile, and that tile is non-empty. */
  lemma {:induction false} ExtendedContainsCanonical(shape: nat, bs: nat, ov: nat, i: nat)
    requires bs > 0 && i < NumBlocks(shape, bs)
    ensures var e, c := ExtendedSlice(shape, bs, ov, i), CanonicalSlice(shape, bs, i);
      0 <= e.start <= c.start < c.stop <= e.stop <= shape
  {
    TileStart(shape, bs, i);
  }

  /** Canonical tiles of the planned blocks tile [0, shape): each voxel
      x of the volume lies in the tile of block x / bs and of no other block,
      and no tile reaches outside the volume. */
  lemma {:induction false} CanonicalOwner(shape: nat, bs: nat, x: int, i: nat)
    requires bs > 0 && i < NumBlocks(shape, bs)
    ensures CanonicalSlice(shape, bs, i).Contains(x) <==> (0 <= x < shape && i == FloorDiv(x, bs))
  {
    CellIsQuotient(x, bs, i);
    TileStart(shape, bs, i);
  }

  /** The block that owns voxel x is one of the planned blocks. */
  lemma {:induction false} OwnerIsPlanned(shape: nat, bs: nat, x: int)
    requires bs > 0 && 0 <= x < shape
    ensures 0 <= FloorDiv(x, bs) < NumBlocks(shape, bs)
  {
    var n, q := NumBlocks(shape, bs), FloorDiv(x, bs);
    assert q * bs <= x;
    assert (n - 1) * bs < shape <= n * bs;
    if n <= q {
      MulMonotone(bs, n, q);
      assert false;
    }
  }

  /** What the overlap crop did on one axis: how many leading elements it
      dropped, how many it kept, and where the kept part is placed. */
  datatype AxisCrop = AxisCrop(offset: nat, len: nat, placement: Slice)

  /** The per-axis overlap crop, as the source writes it: the left overlap is
      dropped when the extended slice does not start at 0; the rest is then
      truncated to bs; the placement start is advanced by ov and its stop is
      only recomputed when truncating. `len` is the array's length on the axis
      before cropping; slicing follows numpy (never past the end). */
  function CropAxis(ext: Slice, len: nat, bs: nat, ov: nat): (c: AxisCrop)
    ensures c.len <= bs && c.offset + c.len <= len
  {
    var off: nat := if ext.start != 0 then Min(ov, len) else 0;
    var rest: nat := len - off;
    var start := if ext.start != 0 then ext.start + ov else ext.start;
    if rest > bs then AxisCrop(off, bs, Slice(start, start + bs))
    else AxisCrop(off, rest, Slice(start, ext.stop))
  }

  /** The crop of a block whose tile [t, min(shape, t + bs)) is non-empty and
      starts at a positive t >= bs, or at 0. */
  lemma {:induction false} CropFromTile(shape: nat, bs: nat, ov: nat, t: int)
    requires bs > 0 && ov < bs && 0 <= t < shape && (t == 0 || t >= bs)
    ensures var e := ExtendedFrom(shape, bs, ov, t);
      var c := CropAxis(e, e.Length(), bs, ov);
      c.placement == Slice(t, Min(shape, t + bs)) && c.len == Min(shape, t + bs) - t && c.offset == t - e.start
  {
  }

  /** With 0 <= ov < bs, cropping the extended array of block i (its length
      is the extended slice's length) keeps exactly the canonical tile: the
      placement is the canonical slice, the kept length is its length, and the
      dropped prefix is exactly the left overlap that planning added. */
  lemma {:induction false} CropRestoresCanonical(shape: nat, bs: nat, ov: nat, i: nat)
    requires bs > 0 && ov < bs && i < NumBlocks(shape, bs)
    ensures 0 <= bs * i < shape
    ensures var e, can := ExtendedSlice(shape, bs, ov, i), CanonicalSlice(shape, bs, i);
      var c := CropAxis(e, e.Length(), bs, ov);
      c.placement == can && c.len == can.Length() && c.offset == can.start - e.start
  {
    TileStart(shape, bs, i);
    CropRestoresAt(shape, bs, ov, i, bs * i);
  }

  lemma {:induction false} CropRestoresAt(shape: nat, bs: nat, ov: nat, i: nat, t: int)
    requires bs > 0 && ov < bs && t == bs * i && 0 <= t < shape && (t == 0 || t >= bs)
    ensures var e, can := ExtendedSlice(shape, bs, ov, i), CanonicalSlice(shape, bs, i);
      var c := CropAxis(e, e.Length(), bs, ov);
      c.placement == can && c.len == can.Length() && c.offset == can.start - e.start
  {
    CropFromTile(shape, bs, ov, t);
  }

  /** For any planned tile start and any overlap, the placement has the kept
      length and starts where the kept part starts. */
  lemma {:induction false} CropFitsFromTile(shape: nat, bs: nat, ov: nat, t: int)
    requires bs > 0 && 0 <= t < shape && (t == 0 || t >= bs)
    ensures var e := ExtendedFrom(shape, bs, ov, t);
      var c := CropAxis(e, e.Length(), bs, ov);
      c.placement.Length() == c.len && e.start + c.offset == c.placement.start
  {
  }

  /** Whatever the overlap, the placement of an extended-length array has the
      length that was kept, so the cropped block fits its placement. */
  lemma {:induction false} CropPlacementFits(shape: nat, bs: nat, ov: nat, i: nat)
    requires bs > 0 && i < NumBlocks(shape, bs)
    ensures 0 <= bs * i < shape
    ensures var e := ExtendedSlice(shape, bs, ov, i);
      var c := CropAxis(e, e.Length(), bs, ov);
      c.placement.Length() == c.len && e.start + c.offset == c.placement.start
  {
    TileStart(shape, bs, i);
    CropFitsAt(shape, bs, ov, i, bs * i);
  }

  lemma {:induction false} CropFitsAt(shape: nat, bs: nat, ov: nat, i: nat, t: int)
    requires bs > 0 && t == bs * i && 0 <= t < shape && (t == 0 || t >= bs)
    ensures var e := ExtendedSlice(shape, bs, ov, i);
      var c := CropAxis(e, e.Length(), bs, ov);
      c.placement.Length() == c.len && e.start + c.offset == c.placement.start
  {
    CropFitsFromTile(shape, bs, ov, t);
  }

  /** As written, with ov >= bs (overlap factor 1.0 or more) on a volume
      longer than one block: block 1's extended slice starts at 0, so it is
      never left-trimmed; it is placed on [0, bs) like block 0, and no
      planned block is placed on the voxels [bs, min(shape, 2*bs)). */
  lemma {:induction false} FullOverlapDuplicatesFirstBlock(shape: nat, bs: nat, ov: nat, x: int)
    requires bs > 0 && bs <= ov && shape > bs && bs <= x < Min(shape, 2 * bs)
    ensures var c0 := CropAxis(ExtendedSlice(shape, bs, ov, 0), ExtendedSlice(shape, bs, ov, 0).Length(), bs, ov);
      var c1 := CropAxis(ExtendedSlice(shape, bs, ov, 1), ExtendedSlice(shape, bs, ov, 1).Length(), bs, ov);
      1 < NumBlocks(shape, bs) && c0.placement == c1.placement == Slice(0, bs)
    ensures forall i: nat :: i < NumBlocks(shape, bs) ==> bs * i < shape
    ensures forall i: nat :: i < NumBlocks(shape, bs) ==>
      var e := ExtendedSlice(shape, bs, ov, i);
      !CropAxis(e, e.Length(), bs, ov).placement.Contains(x)
  {
    var n := NumBlocks(shape, bs);
    OwnerIsPlanned(shape, bs, bs);
    CellIsQuotient(bs, bs, 1);
    assert bs * 0 == 0 && bs * 1 == bs;
    forall i: nat | i < n
      ensures bs * i < shape
      ensures var e := ExtendedSlice(shape, bs, ov, i);
        !CropAxis(e, e.Length(), bs, ov).placement.Contains(x)
    {
      TileStart(shape, bs, i);
      ExtendedContainsCanonical(shape, bs, ov, i);
      if i >= 2 {
        MulMonotone(bs, 2, i);
      }
    }
  }

  /** The smallest case of an overlap above the block size: an axis of 25
      voxels, blocks of 10 and overlap 15 place blocks 0 and 1 both on
      [0, 10), and voxel 10 is under no placement. */
  lemma ExampleOverlapAboveBlock()
    ensures var c1 := CropAxis(ExtendedSlice(25, 10, 15, 1), ExtendedSlice(25, 10, 15, 1).Length(), 10, 15);
      c1.placement == Slice(0, 10)
    ensures forall i: nat :: i < NumBlocks(25, 10) ==>
      var e := ExtendedSlice(25, 10, 15, i);
      !CropAxis(e, e.Length(), 10, 15).placement.Contains(10)
  {
    FullOverlapDuplicatesFirstBlock(25, 10, 15, 10);
  }

  /** The overlap crop as evidently intended: drop exactly the left overlap
      that planning added (canonStart - ext.start, i.e. min(ov, bs*i)), whatever
      the extended start is, then truncate to bs. */
  function CropAxisByTile(ext: Slice, canonStart: int, len: nat, bs: nat): (c: AxisCrop)
    ensures c.len <= bs && c.offset + c.len <= len
  {
    var off: nat := Max(0, Min(len, canonStart - ext.start));
    var rest: nat := len - off;
    var start := ext.start + off;
    if rest > bs then AxisCrop(off, bs, Slice(start, start + bs))
    else AxisCrop(off, rest, Slice(start, start + rest))
  }

  /** The intended crop restores the canonical tile for every overlap,
      including ov >= bs. */
  lemma {:induction false} CropByTileRestoresCanonical(shape: nat, bs: nat, ov: nat, i: nat)
    requires bs > 0 && i < NumBlocks(shape, bs)
    ensures 0 <= bs * i < shape
    ensures var e, can := ExtendedSlice(shape, bs, ov, i), CanonicalSlice(shape, bs, i);
      var c := CropAxisByTile(e, can.start, e.Length(), bs);
      c.placement == can && c.len == can.Length() && c.offset == can.start - e.start
  {
    TileStart(shape, bs, i);
    CropByTileAt(shape, bs, ov, i, bs * i);
  }

  lemma {:induction false} CropByTileAt(shape: nat, bs: nat, ov: nat, i: nat, t: int)
    requires bs > 0 && t == bs * i && 0 <= t < shape
    ensures var e, can := ExtendedSlice(shape, bs, ov, i), CanonicalSlice(shape, bs, i);
      var c := CropAxisByTile(e, can.start, e.Length(), bs);
      c.placement == can && c.len == can.Length() && c.offset == can.start - e.start
  {
    CropByTileFromTile(shape, bs, ov, t);
  }

  lemma {:induction false} CropByTileFromTile(shape: nat, bs: nat, ov: nat, t: int)
    requires bs > 0 && 0 <= t < shape
    ensures var e := ExtendedFrom(shape, bs, ov, t);
      var c := CropAxisByTile(e, t, e.Length(), bs);
      c.placement == Slice(t, Min(shape, t + bs)) && c.len == Min(shape, t + bs) - t && c.offset == t - e.start
  {
  }

  /** Under the documented range ov < bs the crop as written and the intended
      crop agree. */
  lemma {:induction false} CropAgreesWithIntended(shape: nat, bs: nat, ov: nat, i: nat)
    requires bs > 0 && ov < bs && i < NumBlocks(shape, bs)
    ensures 0 <= bs * i < shape
    ensures var e := ExtendedSlice(shape, bs, ov, i);
      CropAxis(e, e.Length(), bs, ov) == CropAxisByTile(e, bs * i, e.Length(), bs)
  {
    CropRestoresCanonical(shape, bs, ov, i);
    CropByTileRestoresCanonical(shape, bs, ov, i);
  }

  /** np.round(bs * 0.25) as numpy computes it (round half to even). */
  function QuarterOverlap(bs: nat): (ov: nat)
    ensures 4 * ov <= bs + 2 && bs <= 4 * ov + 2
  {
    var q, r := bs / 4, bs % 4;
    if r <= 1 then q
    else if r == 3 then q + 1
    else if q % 2 == 0 then q else q + 1
  }

  /** The inversion overlap round(0.25 * bs) is always below the block size, so
      the inversion crop always restores the canonical tiles. */
  lemma QuarterOverlapBelowBlock(bs: nat)
    requires bs > 0
    ensures QuarterOverlap(bs) < bs
  {
  }

  /** The worked example: 256 voxels, blocks of 128, overlap 64. */
  lemma ExampleExtendedSlices()
    ensures NumBlocks(256, 128) == 2
    ensures ExtendedSlice(256, 128, 64, 0) == Slice(0, 192)
    ensures ExtendedSlice(256, 128, 64, 1) == Slice(64, 256)
    ensures CanonicalSlice(256, 128, 0) == Slice(0, 128)
    ensures CanonicalSlice(256, 128, 1) == Slice(128, 256)
  {
  }
}
