# bigstream block geometry, in Dafny

bigstream registers and warps very large 3-D microscopy volumes by cutting
them into blocks. This project models the integer geometry of that:

- how blocks are planned;
- how the transforms are localised to a block;
- which part of the moving image a block reads;
- how the overlap is cropped off a block's result;
- where the result is written;
- how point lists are bucketed into cells and put back in input order.

It also models the command-line front end that drives
`distributed_apply_transform`.

The modules follow the program's structure:

- `Axis` (axis.dfy) covers one axis.
  - `nblocks = ceil(shape / blocksize)`.
  - The extended slice `[max(0, bs*i - ov), min(shape, bs*i + bs + ov))`.
  - The canonical tile `[bs*i, min(shape, bs*i + bs))`.
  - The per-axis overlap crop as the source writes it (`CropAxis`), and the crop as evidently intended (`CropAxisByTile`).
  - The inversion overlap `round(0.25 * bs)`.
- `NdIndex` (ndindex.dfy) is `np.ndindex`: the row-major enumeration of a box of multi-indices. The source's 3-D `(i, j, k)` loops are lifted to d axes.
- `BlockPlanner` (planner.dfy) holds the block-list loops of the distributed and piecewise pipelines, and the fact that the canonical tiles tile the volume.
- `Arrays` (arrays.dfy) covers numpy arrays and views.
  - A `View` is an array or a slice of one: element `idx` is `data(origin + idx)`.
  - numpy's clipping of slice bounds.
  - The output array `Volume`, a class whose `Write` is `output[slices] = block`.
- `TransformLocalizer` (localizer.dfy) localises the transform list to a block.
  - An affine passes through unchanged.
  - A displacement field is cut to the window that covers the block.
  - The `transform_spacing` normalisation.
  - The field crops of the two point pipelines.
- `MovingBox` (corners.dfy) holds the 2^d block corners in `itertools.product` order, their clipping into the moving image, and the moving bounding box.
- `BlockResampler` (resample.dfy) is the part of a block pipeline before the crop: localise, map the corners, read the moving box, resample.
- `OverlapCropper` (cropper.dfy) is the crop loop over the axes, as a method that reassigns the view axis by axis.
- `BlockAssembly` (assembly.dfy) covers `_write_block`, and the invariant "the tiles written so far hold their final values".
- `DistributedTransform` (distributed.dfy) holds `_transform_single_block`, `_invert_block`, and the two block loops of distributed_transform.py.
- `PiecewiseTransform` (piecewise.dfy) holds `transform_single_block`, `invert_block`, and the in-memory inverse assembly of piecewise_transform.py.
- `CoordinatePartitioner` (partition.dfy) covers the point pipelines.
  - Bucketing points into half-open cells.
  - Concatenating the member indices.
  - The scatter `results[indices] = permuted`.
  - The grids of both pipelines.
- `CoordinateTransform` (coords.dfy) holds both `distributed_apply_transform_to_coordinates` pipelines: per-block transform crops, the point map and the result order.
- `Cli` (cli.dfy) models `scripts/main_apply_local_transform.py`.
  - `_inttuple` and `_stringlist`, over models of Python's `str.split`, `str.strip` and `int()`.
  - `_run_apply_transform` up to its call of `distributed_apply_transform`.

The numeric kernels are parameters without an interpretation:

- `apply_transform`;
- `apply_transform_to_coordinates`;
- `invert_displacement_vector_field`.

The model fixes only their shapes:

- a resampled block has the extended block's shape;
- an inverted block has the shape of the field it was given;
- a point map returns one point per point, with as many coordinates.

Spacings and coordinates are integers. `FloorDiv` and `CeilDiv` stand for `np.floor(a / b)` and `np.ceil(a / b)`.

The pipelines follow the code as written, including the crop keyed on `start != 0`. Where that code is wrong, a corrected member sits beside the as-written one, with the intended property proved (see Findings).

For ov < bs, the as-written crop and the intended crop agree (`Axis.CropAgreesWithIntended`), and the pipelines' tile guarantees are stated for ov < bs. The pipelines themselves take any overlap: for every ov, each placement lies in the volume and is as long as the data written there (`OverlapCropper.CropPlacementInVolume`).

Only `distributed_apply_transform` documents its overlap factor as lying in [0, 1]; its endpoint 1.0 gives ov == bs, and `round(bs * f)` can reach bs for smaller factors too (bs = 1, f = 0.6). `distributed_invert_displacement_vector_field` documents no range for its factor. Every ov >= bs is Findings row 1.

The block call of `distributed_apply_transform` is modelled as evidently intended, with `**kwargs`: the resampling kernel stands for `apply_transform` together with whatever extra keyword arguments the caller passed. The call as written, with `*kwargs`, is Findings row 6.

## Model

| member | source | states |
|---|---|---|
| Axis.NumBlocks | bigstream/distributed_transform.py:87 | The block count n of an axis is the least that covers it: (n-1)*bs < shape <= n*bs, and an empty axis has no blocks |
| Axis.CellIsQuotient | bigstream/distributed_transform.py:364-370 | A coordinate lies in the half-open cell [bs*i, bs*i+bs) exactly when i is its floor quotient by bs, so each coordinate has one cell |
| Axis.ExtendedContainsCanonical | bigstream/distributed_transform.py:109-115 | For every planned block, the clipped extended slice stays inside [0, shape) and contains the block's canonical tile, which is non-empty |
| Axis.CanonicalOwner | bigstream/piecewise_transform.py:500-510 | Voxel x is in the canonical tile of planned block i exactly when x is in the volume and i = x // bs |
| Axis.OwnerIsPlanned | bigstream/piecewise_transform.py:495-500 | The block that owns a voxel of the volume is one of the planned blocks |
| Axis.CropAxis | bigstream/distributed_transform.py:257-278 | The as-written crop of one axis keeps at most bs elements, all inside the array it crops |
| Axis.CropRestoresCanonical | bigstream/distributed_transform.py:256-278 | With 0 <= ov < bs, cropping an extended-length array of block i yields exactly its canonical tile: placement, kept length and offset of the kept part |
| Axis.CropPlacementFits | bigstream/distributed_transform.py:256-278 | For every overlap, the returned placement slice is exactly as long as the kept data and starts where the kept data starts in volume coordinates |
| Axis.FullOverlapDuplicatesFirstBlock | bigstream/distributed_transform.py:262-267 | As written, with ov >= bs on an axis longer than bs: blocks 0 and 1 are both placed at [0, bs), every planned tile starts inside the axis, and no block is placed over any voxel of [bs, min(shape, 2bs)) |
| Axis.CropAxisByTile | bigstream/distributed_transform.py:257-278 | The intended crop, keyed on the tile start instead of the extended start, also keeps at most bs elements inside the array |
| Axis.CropByTileRestoresCanonical | bigstream/distributed_transform.py:256-278 | The intended crop restores the canonical tile of every planned block, for every overlap |
| Axis.CropAgreesWithIntended | bigstream/distributed_transform.py:262-276 | For ov < bs the as-written crop and the intended crop give the same placement, length and offset |
| Axis.ExampleOverlapAboveBlock | bigstream/distributed_transform.py:570-574 | The inversion crop with an axis of 25, blocks of 10 and overlap 15: block 1 is placed on [0, 10) like block 0, and voxel 10 is under no placement |
| Axis.QuarterOverlap | bigstream/piecewise_transform.py:494 | round(bs * 0.25) is within one half of bs/4 |
| Axis.QuarterOverlapBelowBlock | bigstream/piecewise_transform.py:494 | The inversion overlap is always below the block size, so the inversion crop restores tiles |
| Axis.ExampleExtendedSlices | bigstream/distributed_transform.py:109-115 | The worked example: shape 256, blocks of 128, overlap 64 give two blocks, extended [0,192) and [64,256), tiles [0,128) and [128,256) |
| NdIndex.EnumerateMembers | bigstream/distributed_transform.py:109 | np.ndindex(*dims) yields exactly the multi-indices of the box |
| NdIndex.EnumerateNoDup | bigstream/distributed_transform.py:109 | np.ndindex yields no multi-index twice |
| NdIndex.EnumerateLength | bigstream/distributed_transform.py:109 | np.ndindex yields the product of the dimensions many multi-indices |
| NdIndex.EnumerateExactlyOnce | bigstream/piecewise_transform.py:500 | Every multi-index of the box occurs at exactly one position of the enumeration, and nothing else occurs |
| NdIndex.EnumerateInRange | bigstream/piecewise_transform.py:123 | Every multi-index the enumeration yields lies in the box |
| NdIndex.IndexOf | bigstream/piecewise_transform.py:564 | list.index: the first position holding the element, the only one when the list has no repeats |
| BlockPlanner.TileOf | bigstream/piecewise_transform.py:500-502 | The multi-index of the block whose tile holds voxel p is p // blocksize, axis by axis |
| BlockPlanner.PlanExtendedBlocks | bigstream/distributed_transform.py:108-115 | The block list has one entry per multi-index of the ceil(shape/bs) grid, in np.ndindex order, and entry t is the clipped extended slices of multi-index t (the same rule as distributed_transform.py:506-513 and piecewise_transform.py:122-128) |
| BlockPlanner.PlannedBlock | bigstream/distributed_transform.py:110-114 | One loop iteration: start and stop clipped into the volume give the block's extended slices |
| BlockPlanner.PlanInversionBlocks | bigstream/piecewise_transform.py:497-513 | Two lists in np.ndindex order: the canonical tiles, and the extended slices with overlap round(0.25*bs) |
| BlockPlanner.InversionBlock | bigstream/piecewise_transform.py:501-511 | One iteration of the inversion planner: the canonical and the extended slices of one multi-index |
| BlockPlanner.ExtendedBlockContainsTile | bigstream/distributed_transform.py:109-115 | On every axis, a planned block's extended slices lie inside the volume and contain its non-empty canonical tile |
| BlockPlanner.TileMembership | bigstream/piecewise_transform.py:500-511 | A voxel is in the tile of planned block m exactly when it is in the volume and its tile index is m |
| BlockPlanner.TileIsPlanned | bigstream/piecewise_transform.py:495-500 | The tile index of any voxel of the volume is a multi-index of the grid |
| BlockPlanner.CanonicalTilesPartition | bigstream/piecewise_transform.py:497-513 | The canonical tiles tile the volume: a point is in some tile exactly when it is in the volume, and it is in no two tiles |
| Arrays.ClipBound | bigstream/piecewise_transform.py:379 | numpy's normalisation of a slice bound: never past the axis length, and a non-negative bound is capped at the length |
| Arrays.ClipSlice | bigstream/piecewise_transform.py:379 | numpy's a[lo:hi]: the clipped slice lies in [0, len) with start <= stop |
| Arrays.SliceView | bigstream/distributed_transform.py:201 | Indexing an array with slices yields a view of the same data whose origin moves by the clipped starts and whose shape is the clipped lengths |
| Arrays.ClipInside | bigstream/distributed_transform.py:201 | A slice already inside the axis is left unchanged by numpy's clipping |
| Arrays.Volume.Filled | bigstream/piecewise_transform.py:561 | np.zeros_like: an array of the given shape holding the fill value everywhere |
| Arrays.Volume.Write | bigstream/distributed_transform.py:598 | output[slices] = block changes exactly the box the slices describe, each position getting the block element at its local index |
| TransformLocalizer.FieldWindowCovers | bigstream/distributed_transform.py:197-200 | The voxel window cut out of a field covers the block's physical extent: its start is the field voxel holding the block origin, its stop the first voxel at or past the block end |
| TransformLocalizer.FieldWindowSameSpacing | bigstream/distributed_transform.py:197-200 | A field sampled like the fixed image gets exactly the block's own slices |
| TransformLocalizer.Localize | bigstream/distributed_transform.py:193-206 | Localisation fails (the IndexError of transform_spacing_list[iii]) exactly when some field has no spacing entry; otherwise it returns one transform and one origin per transform |
| TransformLocalizer.LocalizeTransforms | bigstream/distributed_transform.py:193-208 | The localisation loop computes Localize |
| TransformLocalizer.LocalizeContents | bigstream/distributed_transform.py:194-202 | With a spacing for every transform, an affine passes unchanged with the block origin, and a field is viewed through its window with origin start*spacing |
| TransformLocalizer.CoordsFieldCrop | bigstream/distributed_transform.py:416-423 | The field crop of _transform_coords keeps each block start and caps each stop at the field's extent |
| TransformLocalizer.CoordsFieldCropIsNumpyClip | bigstream/distributed_transform.py:416-427 | Capping the stops changes nothing: the cropped view equals the view numpy's own clipping gives |
| TransformLocalizer.PartitionFieldCrop | bigstream/piecewise_transform.py:374-378 | The transform_partition crop runs from min(last index, floor(a/s)) to ceil(b/s)+1 on each axis |
| TransformLocalizer.PartitionFieldCropNonEmpty | bigstream/piecewise_transform.py:374-378 | For a <= b the partition crop is non-empty, starts at or before the last voxel and reaches past b |
| TransformLocalizer.SpacingList | bigstream/distributed_transform.py:92-103 | An absent transform_spacing becomes the fixed spacing for every transform, a single one is repeated for every transform, and a tuple is kept as given |
| TransformLocalizer.SpacingListCoversAll | bigstream/piecewise_transform.py:110-113 | An absent or single transform_spacing never leaves a field without a spacing |
| MovingBox.BlockCorners | bigstream/distributed_transform.py:214-217 | The corner loop yields the block corners in mask order |
| MovingBox.CornersAreTheCorners | bigstream/distributed_transform.py:214-217 | There are exactly 2^d corners; each coordinate is the slice start or stop-1; the corner of each 0/1 mask is present, at that mask's position |
| MovingBox.ClippedInImage | bigstream/distributed_transform.py:228-230 | Clipped mapped corners lie in [0, mov_shape] on every axis |
| MovingBox.MinAt | bigstream/distributed_transform.py:232 | np.min along axis 0 is a lower bound of the column that some point attains |
| MovingBox.MaxAt | bigstream/distributed_transform.py:233 | np.max along axis 0 is an upper bound of the column that some point attains |
| MovingBox.MovingAxis | bigstream/distributed_transform.py:232-234 | One axis of the moving box: 0 <= start <= stop <= mov_shape, every clipped corner in [start, stop], both ends attained |
| MovingBox.MovingSlices | bigstream/distributed_transform.py:232-234 | The moving box as written lies in the moving image, and on every axis lies between the smallest and the largest clipped corner, both attained |
| MovingBox.MovingSlicesInclusive | bigstream/distributed_transform.py:232-234 | The intended moving box contains every clipped corner that is a voxel of the moving image |
| MovingBox.InclusiveAxis | bigstream/distributed_transform.py:233-234 | One axis of the intended box: inside the image and containing every in-image corner coordinate |
| MovingBox.MovingSlicesDropLastVoxel | bigstream/distributed_transform.py:215-234 | As written, the block [64,256) mapped by the identity reads the moving slice [64,255), which misses the corner voxel 255; the intended box is [64,256) |
| BlockResampler.MappedCorners | bigstream/distributed_transform.py:214-228 | One mapped point per block corner, each with a coordinate per moving axis |
| BlockResampler.AlignedBlock | bigstream/distributed_transform.py:182-254 | The resampled block fails exactly when localisation fails; otherwise it has the extended block's shape |
| BlockResampler.MovingRegionInImage | bigstream/distributed_transform.py:228-238 | The moving region a block reads lies inside the moving image |
| BlockResampler.AlignBlock | bigstream/distributed_transform.py:182-254 | The steps before the crop compute AlignedBlock |
| OverlapCropper.CropOverlap | bigstream/distributed_transform.py:256-280 | The crop loop yields a view of the same data and a placement; on each axis they are the as-written crop of that axis: placement, kept length, origin shifted by the dropped overlap |
| OverlapCropper.CropOneAxis | bigstream/distributed_transform.py:258-278 | One pass of the crop loop changes only its own axis, by CropAxis |
| OverlapCropper.CropRestoresTile | bigstream/piecewise_transform.py:221-238 | With ov < bs on every axis, the crop of a planned block's result is its canonical tile, with that tile's length |
| OverlapCropper.CropPlacementInVolume | bigstream/piecewise_transform.py:530-542 | For every overlap the placement lies in the volume and is as long as the kept data |
| OverlapCropper.CroppedAt | bigstream/distributed_transform.py:256-283 | At every voxel of the placement, the cropped view holds the uncropped block's element for that voxel |
| BlockAssembly.TilePosition | bigstream/piecewise_transform.py:564-565 | The block holding a voxel of the volume sits at exactly one position of the block list |
| BlockAssembly.AssembleStep | bigstream/piecewise_transform.py:561-565 | Writing one block's values over its tile adds that block to the set of completed tiles |
| BlockAssembly.AssembledComplete | bigstream/piecewise_transform.py:561-566 | Once every block is written, the volume holds the expected values inside and its old values outside |
| BlockAssembly.WriteBlock | bigstream/distributed_transform.py:595-600 | _write_block writes the block at its coordinates only when an output is given, and always returns the coordinates unchanged |
| DistributedTransform.PlacementIsTile | bigstream/distributed_transform.py:256-278 | A planned block's placement lies in the volume and, with ov < bs, is its canonical tile |
| DistributedTransform.PlannedCrop | bigstream/distributed_transform.py:256-283 | Cropping a planned block yields a placement inside the volume, with its own length, carrying the uncropped block's element at every voxel |
| DistributedTransform.CropAndWrite | bigstream/distributed_transform.py:256-284 | The crop and write of a block change the output exactly on the placement, with the block's values for those voxels |
| DistributedTransform.TransformSingleBlock | bigstream/distributed_transform.py:167-288 | _transform_single_block fails (leaving the output alone) exactly when a field lacks a spacing; otherwise it returns the placement and writes the resampled values there, nothing else |
| DistributedTransform.PlannedStep | bigstream/distributed_transform.py:108-164 | Writing block t keeps the volume outside the image unchanged and, with ov < bs, adds block t to the completed tiles |
| DistributedTransform.TransformedOnTile | bigstream/distributed_transform.py:167-288 | On the tile of a block, the assembled resampled volume is that block's own resampled value |
| DistributedTransform.TransformStep | bigstream/distributed_transform.py:167-288 | PlannedStep for a block written by _transform_single_block |
| DistributedTransform.ApplyTile | bigstream/distributed_transform.py:167-288 | One block of the loop: failure iff a field lacks a spacing; otherwise a placement inside the volume (its tile when ov < bs), and one more completed tile |
| DistributedTransform.DistributedApplyTransform | bigstream/distributed_transform.py:84-164 | Fails iff a field lacks a spacing and there is a block; otherwise one placement per block, each its tile when ov < bs, and the output holds the resampled image inside the volume and is unchanged outside |
| DistributedTransform.BindBlockCall | bigstream/distributed_transform.py:166-177 | Python's binding of a call of _transform_single_block: TypeError iff there are too many positional arguments, a repeated keyword or a keyword naming a parameter bound by position; otherwise the third positional argument is block_coords and exactly the keywords naming no parameter reach additional_transform_args |
| DistributedTransform.StarKwargsFailsEveryBlock | bigstream/distributed_transform.py:128-141 | As written (`*kwargs`), every block's call raises TypeError iff any extra keyword argument is given, and without one it binds the block's slices and passes nothing on |
| DistributedTransform.DoubleStarKwargsReachApplyTransform | bigstream/distributed_transform.py:128-141 | Intended (`**kwargs`): the call binds iff no key names a parameter of the block function, and then the block's slices are block_coords and every key reaches additional_transform_args |
| DistributedTransform.InvertedBlock | bigstream/distributed_transform.py:553-559 | The inverse of a block has the block's shape |
| DistributedTransform.InvertBlock | bigstream/distributed_transform.py:538-592 | _invert_block returns the placement and writes the inverted block's values on it and nothing else |
| DistributedTransform.InvertStep | bigstream/distributed_transform.py:538-592 | Writing an inverted block adds it to the completed tiles, with ov < bs |
| DistributedTransform.DistributedInvert | bigstream/distributed_transform.py:494-535 | For every overlap, one in-volume placement per block, each its tile when ov < bs; the output holds the block-wise inverse inside the volume and is unchanged outside |
| PiecewiseTransform.PiecewiseTransformBlock | bigstream/piecewise_transform.py:132-241 | transform_single_block fails iff a field lacks a spacing; its result is at most bs long per axis and, with ov < bs, is exactly the tile, holding the resampled value of each tile voxel |
| PiecewiseTransform.PiecewiseInvertBlock | bigstream/piecewise_transform.py:516-549 | invert_block returns the cropped inverse iff no output is given; it has the tile's shape and holds the inverse's value at each tile voxel, or is written over exactly that tile |
| PiecewiseTransform.InvertTileStep | bigstream/piecewise_transform.py:561-565 | Writing one inverse over its canonical tile adds it to the completed tiles |
| PiecewiseTransform.InvertTile | bigstream/piecewise_transform.py:562-565 | One completed block lands on its tile of the assembled inverse |
| PiecewiseTransform.PiecewiseInvert | bigstream/piecewise_transform.py:475-569 | Whatever order the blocks complete in, the inverse holds the block-wise inverse on every voxel of the field and zero (or the output's old value) elsewhere |
| CoordinatePartitioner.Lowest | bigstream/distributed_transform.py:344 | min_coord is a lower bound of every point on each axis |
| CoordinatePartitioner.Highest | bigstream/distributed_transform.py:345 | max_coord is an upper bound of every point on each axis |
| CoordinatePartitioner.CellMembership | bigstream/distributed_transform.py:364-370 | A point lies in the half-open cell idx exactly when idx is its cell index, so cells are disjoint |
| CoordinatePartitioner.Members | bigstream/distributed_transform.py:368-370 | np.nonzero lists exactly the indices of the points in the cell, increasing |
| CoordinatePartitioner.SharedMember | bigstream/distributed_transform.py:364-370 | No point is listed by two different cells |
| CoordinatePartitioner.KeptCells | bigstream/distributed_transform.py:371-377 | Only cells holding some point are kept |
| CoordinatePartitioner.KeptCellsMembers | bigstream/distributed_transform.py:359-377 | A cell is kept exactly when it is a grid cell holding some point |
| CoordinatePartitioner.KeptCellsNoDup | bigstream/distributed_transform.py:359-377 | No cell is kept twice |
| CoordinatePartitioner.PartitionPoints | bigstream/piecewise_transform.py:352-362 | The partition loop keeps the occupied cells in grid order with their member lists, none empty |
| CoordinatePartitioner.EnumerateIsGrid | bigstream/distributed_transform.py:359 | np.ndindex lists every cell of the grid once |
| CoordinatePartitioner.KeptCellsCover | bigstream/distributed_transform.py:359-377 | A point whose cell is in the grid is listed by some kept cell |
| CoordinatePartitioner.KeptMembersInGrid | bigstream/distributed_transform.py:359-380 | A listed point is a point of the input whose cell is in the grid |
| CoordinatePartitioner.Concat | bigstream/distributed_transform.py:380 | np.concatenate holds exactly the elements of its parts |
| CoordinatePartitioner.ConcatNoDup | bigstream/distributed_transform.py:380 | Disjoint parts without repeats concatenate without repeats |
| CoordinatePartitioner.PartitionIsPermutation | bigstream/distributed_transform.py:359-380 | When every point's cell is in the grid, the concatenated indices are a permutation of 0..N-1 |
| CoordinatePartitioner.KeptMembersCover | bigstream/distributed_transform.py:359-380 | The concatenated indices hold exactly 0..N-1 when every point's cell is in the grid |
| CoordinatePartitioner.KeptMembersDisjoint | bigstream/distributed_transform.py:359-380 | The member lists of the kept cells have no repeats and share no index |
| CoordinatePartitioner.Scatter | bigstream/distributed_transform.py:393-394 | results[indices] = permuted raises IndexError exactly when an index is out of range; otherwise row indices[k] gets row k |
| CoordinatePartitioner.ScatterRestoresOrder | bigstream/piecewise_transform.py:395-397 | When indices is a permutation of 0..N-1 and row k is the wanted row of point indices[k], the scatter yields the wanted rows in input order |
| CoordinatePartitioner.DistributedGrid | bigstream/distributed_transform.py:347 | The distributed grid is ceil(extent/pitch + 1) cells per axis |
| CoordinatePartitioner.DistributedGridCovers | bigstream/distributed_transform.py:347 | With that extra cell, every point between min and max has its cell in the grid |
| CoordinatePartitioner.PiecewiseGrid | bigstream/piecewise_transform.py:349-351 | The piecewise grid is ceil(extent/partition_size) cells per axis |
| CoordinatePartitioner.PiecewiseGridCovers | bigstream/piecewise_transform.py:349-362 | A point is in the piecewise grid exactly when it lies below min + size*ceil(extent/size) on every axis |
| CoordinatePartitioner.PiecewiseGridLosesBoundaryPoint | bigstream/piecewise_transform.py:349-351 | Points 0 and 30 with size 30: one cell, and point 30 falls in cell 1, outside it; the distributed grid has two cells and keeps it |
| CoordinateTransform.Take | bigstream/distributed_transform.py:376 | coordinates[point_indexes]: the listed rows in list order |
| CoordinateTransform.MemberCell | bigstream/distributed_transform.py:364-377 | A point listed by a cell has that cell as its cell index |
| CoordinateTransform.CropToBlock | bigstream/distributed_transform.py:414-430 | An affine passes unchanged; a field is viewed through the block's voxel slices |
| CoordinateTransform.FieldCropSlices | bigstream/distributed_transform.py:416-423 | The per-axis crop loop computes the capped field crop |
| CoordinateTransform.WarpRow | bigstream/distributed_transform.py:440-443 | An output row has the input row's length: the first three columns are warped, the payload columns are copied unchanged |
| CoordinateTransform.TransformCoords | bigstream/distributed_transform.py:398-453 | _transform_coords maps each row by WarpRow, with the transforms cropped to the block and the origin reversed |
| CoordinateTransform.PitchPositive | bigstream/distributed_transform.py:343 | The physical block size is positive on every axis |
| CoordinateTransform.AppendPaired | bigstream/distributed_transform.py:380-391 | Concatenating indices and rows partition by partition keeps row j the result for point indices[j] |
| CoordinateTransform.DistributedCellStep | bigstream/distributed_transform.py:398-453 | A block's warped rows are, row for row, the pipeline's results for its listed points |
| CoordinateTransform.TransformCells | bigstream/distributed_transform.py:382-391 | Mapping the kept cells and concatenating pairs each concatenated index with that point's result |
| CoordinateTransform.TransformCell | bigstream/distributed_transform.py:398-453 | One _transform_coords call pairs each listed point with its result |
| CoordinateTransform.DistributedTransformCoordinates | bigstream/distributed_transform.py:342-395 | An empty point list fails; otherwise the result is every point's warped row in input order |
| CoordinateTransform.BucketAndMap | bigstream/distributed_transform.py:355-391 | The bucketing and map yield a permutation of 0..N-1 and rows paired with the points it lists |
| CoordinateTransform.DistributedIndicesArePermutation | bigstream/distributed_transform.py:347-380 | In the distributed grid the concatenated indices are a permutation of 0..N-1 |
| CoordinateTransform.AllInDistributedGrid | bigstream/distributed_transform.py:344-347 | Every point's cell lies in the distributed grid |
| CoordinateTransform.FieldSpacingHasAxes | bigstream/piecewise_transform.py:372-373 | Every spacing the lookup yields has d positive entries |
| CoordinateTransform.SpacingFailsWhen | bigstream/piecewise_transform.py:371-374 | The spacing lookup fails exactly when a field meets an absent spacing or lies past the tuple; a full tuple or an affine-only list never fails |
| CoordinateTransform.CropToPartition | bigstream/piecewise_transform.py:370-380 | An affine passes unchanged; a field is viewed through the partition crop |
| CoordinateTransform.PartitionCropWindow | bigstream/piecewise_transform.py:374-379 | When a >= 0 and the field holds the voxels from floor(a/s) to ceil(b/s), the crop starts at floor(a/s) and ends one past ceil(b/s) |
| CoordinateTransform.PartitionCropNegativeStart | bigstream/piecewise_transform.py:374-379 | When a < 0 the crop start floor(a/s) is negative and numpy counts it from the end: the crop starts at max(0, n + floor(a/s)), and is empty when the stop ceil(b/s)+1 is an index at or before that start |
| CoordinateTransform.NegativeMinimumEmptiesCrop | bigstream/piecewise_transform.py:374-379 | A 10-voxel axis, unit spacing and points from -1 to 3 give an empty field crop on that axis |
| CoordinateTransform.CropPartitionTransforms | bigstream/piecewise_transform.py:369-381 | The crop loop fails exactly when the spacing lookup fails, and otherwise crops every transform |
| CoordinateTransform.CropTransform | bigstream/piecewise_transform.py:371-379 | One transform: fails iff it is a field with no spacing, otherwise CropToPartition |
| CoordinateTransform.TransformPartition | bigstream/piecewise_transform.py:364-388 | transform_partition fails iff the spacing lookup fails; otherwise it maps every row, keeping the row count |
| CoordinateTransform.PiecewiseCellStep | bigstream/piecewise_transform.py:364-388 | A partition's mapped rows are, row for row, the pipeline's results for its listed points |
| CoordinateTransform.TransformCellPartition | bigstream/piecewise_transform.py:391-394 | One partition: failure iff the spacing lookup fails, otherwise its rows paired with their points |
| CoordinateTransform.TransformPartitions | bigstream/piecewise_transform.py:391-395 | The map over the partitions fails iff there is a partition and the lookup fails; otherwise each concatenated index is paired with its point's result |
| CoordinateTransform.PiecewiseIndicesDistinct | bigstream/piecewise_transform.py:352-362 | The piecewise indices never list a point twice and list only input points |
| CoordinateTransform.PiecewiseIndicesCovered | bigstream/piecewise_transform.py:349-362 | When no point sits on the far grid boundary, the piecewise indices are a permutation of 0..N-1 |
| CoordinateTransform.CoveredInGrid | bigstream/piecewise_transform.py:349-362 | A point off the far boundary has its cell in the piecewise grid |
| CoordinateTransform.LostPoint | bigstream/piecewise_transform.py:349-362 | Otherwise some point's cell is outside the piecewise grid |
| CoordinateTransform.PiecewiseIndicesLost | bigstream/piecewise_transform.py:349-362 | Otherwise fewer indices than points are concatenated |
| CoordinateTransform.UnlistedPoint | bigstream/piecewise_transform.py:349-362 | Otherwise some input point is in no partition |
| CoordinateTransform.PiecewiseTransformCoordinates | bigstream/piecewise_transform.py:348-398 | Empty input or a missing spacing fails; with every point covered the result is every point's mapped row in input order; otherwise any result is shorter than the input |
| Cli.Split | scripts/main_apply_local_transform.py:15 | str.split always yields at least one piece, and no piece holds the separator |
| Cli.JoinSplit | scripts/main_apply_local_transform.py:15 | Joining the pieces of a split with the separator gives the string back |
| Cli.SplitJoin | scripts/main_apply_local_transform.py:15 | Splitting a join of separator-free pieces gives the pieces back |
| Cli.SplitTrailing | scripts/main_apply_local_transform.py:15 | A trailing separator adds exactly one empty last piece |
| Cli.Strip | scripts/main_apply_local_transform.py:29 | str.strip yields a contiguous piece of the input with no whitespace at either end, empty exactly when the input is all whitespace |
| Cli.StripPadded | scripts/main_apply_local_transform.py:29 | strip removes exactly the whitespace around a stripped string |
| Cli.StripKeepsOut | scripts/main_apply_local_transform.py:29 | strip introduces no character that was not there |
| Cli.IntStringValue | scripts/main_apply_local_transform.py:15 | str(n) is a stripped, comma-free literal whose value is n |
| Cli.ParseIntString | scripts/main_apply_local_transform.py:15 | int() reads back str(n) with any whitespace around it |
| Cli.ParseBlankFails | scripts/main_apply_local_transform.py:15 | int() of an empty or all-whitespace field raises ValueError |
| Cli.Collect | scripts/main_apply_local_transform.py:15 | The list comprehension succeeds iff every element does, with the values in order; otherwise it raises the first failure |
| Cli.IntTuple | scripts/main_apply_local_transform.py:13-17 | None or a blank string gives (); otherwise one int per comma field in order, or the error of the first field int() rejects |
| Cli.IntTupleRoundTrip | scripts/main_apply_local_transform.py:13-17 | _inttuple reads back any tuple written as comma-separated numbers |
| Cli.TrailingCommaRaises | scripts/main_apply_local_transform.py:15 | A non-blank argument with a trailing comma raises, because its last field is empty |
| Cli.NonEmpty | scripts/main_apply_local_transform.py:29 | filter(lambda x: x, ...) keeps exactly the non-empty strings, and changes nothing when none is empty |
| Cli.NonEmptyAppend | scripts/main_apply_local_transform.py:29 | filter distributes over concatenation: the non-empty strings of xs + ys are those of xs followed by those of ys, so order and repeats are kept |
| Cli.NonEmptyOne | scripts/main_apply_local_transform.py:29 | On one string, filter keeps it exactly when it is non-empty; with NonEmptyAppend this fixes filter's result on every list |
| Cli.StringList | scripts/main_apply_local_transform.py:27-31 | None or blank gives []; every element is non-empty, stripped and free of commas |
| Cli.StringListOfFields | scripts/main_apply_local_transform.py:27-31 | For any comma-free fields, padded or empty ones included, _stringlist of the fields joined with commas is the fields stripped, in order, without the empty ones |
| Cli.StringListExample | scripts/main_apply_local_transform.py:27-31 | " a.mat , ,b.mat " reads as ["a.mat", "b.mat"] |
| Cli.StringListRoundTrip | scripts/main_apply_local_transform.py:27-31 | _stringlist reads back any list of non-empty, stripped, comma-free strings written with commas |
| Cli.FirstGiven | scripts/main_apply_local_transform.py:108-110 | The subpath default chain takes the first truthy option, or the last option when none is truthy |
| Cli.FixedSpacing | scripts/main_apply_local_transform.py:114-115 | A given --fixed-spacing, reversed from x,y,z to z,y,x, is the fixed spacing; otherwise the image's own |
| Cli.MovingSpacing | scripts/main_apply_local_transform.py:116-119 | --moving-spacing reversed when given, else the fixed spacing when --fixed-spacing is given, else the moving image's own |
| Cli.FieldSpacing | scripts/main_apply_local_transform.py:135-144 | The field spacing as written fails ('NoneType' not subscriptable) exactly when the fixed spacing is missing or neither --transform-spacing nor the field's metadata gives one |
| Cli.FieldSpacingIgnoresArgument | scripts/main_apply_local_transform.py:136-140 | As written, whenever it succeeds the field spacing is the fixed spacing with a trailing 1, whatever --transform-spacing says |
| Cli.IntendedFieldSpacing | scripts/main_apply_local_transform.py:136-140 | The intended field spacing fails only when no source of a spacing exists |
| Cli.IntendedFieldSpacingUsesArgument | scripts/main_apply_local_transform.py:136-137 | Intended: a given --transform-spacing, reversed with a trailing 1, is the field spacing |
| Cli.TransformSpacingDiscarded | scripts/main_apply_local_transform.py:136-140 | --transform-spacing 2,2,2 with fixed spacing 1,1,1 gives 1,1,1,1 as written against 2,2,2,1 as intended |
| Cli.OutputBlocks | scripts/main_apply_local_transform.py:146-152 | A non-empty --output-blocksize, reversed, is the output block size; otherwise the chunk size on every fixed axis |
| Cli.TransformSpacing | scripts/main_apply_local_transform.py:165-183 | The spacing tuple gets one entry for all the affines, which is ones on every moving axis, and one for the field, the field's last |
| Cli.TwoAffinesLoseFieldSpacing | scripts/main_apply_local_transform.py:165-183 | With two or more affine files and a field, the field has no spacing entry, so the localiser raises IndexError |
| Cli.IntendedTransformSpacing | scripts/main_apply_local_transform.py:165-183 | Intended: one entry of ones per affine file and the field's spacing last |
| Cli.IntendedSpacingCoversAll | scripts/main_apply_local_transform.py:165-183 | With the intended tuple every transform has a spacing and the field's entry is the field spacing |
| Cli.SliceTo | scripts/main_apply_local_transform.py:183 | numpy's s[:stop] is the prefix up to the clipped stop |
| Cli.PlanCall | scripts/main_apply_local_transform.py:165-186 | The --output branch: the affine files in order, the field when it has data, and the spacing tuple built as the script builds it |
| Cli.RunApplyTransform | scripts/main_apply_local_transform.py:105-204 | Fails iff the field spacing does; otherwise the subpath defaults, spacings and output blocks are as above, and the call to distributed_apply_transform is made exactly when --output is given, with the affine files, the field and the spacing tuple |

## Left out

- Dask scheduling is left out: `client.map`, `gather`, `as_completed`, `da.map_blocks`, the `@cluster` decorator and the cancelled-future logging. It is concurrency and distribution. Each block loop is modelled as a sequential loop over the planned blocks.
- The order in which blocks complete is left out of the distributed pipelines. `PiecewiseInvert` takes the completion order as a parameter.
- The assembly of the piecewise resampling (`da.map_blocks` with `chunks=blocksize`, the crop to the fixed shape, `to_zarr`/`compute`) is left out. It is Dask array plumbing. `PiecewiseTransform.PiecewiseTransformBlock` states what each block contributes.
- The numeric kernels `apply_transform`, `apply_transform_to_coordinates` and `invert_displacement_vector_field` are not part of this model. They are uninterpreted parameters with shape-only contracts, and no claim is made about their accuracy.
- Storage and I/O are left out: zarr reads and writes, `numpy_to_zarr`, `create_zarr`, `create_dataset`, `np.loadtxt`, `ImageData` and `read_image`. The temporary directories are left out too. Image metadata reaches the script model as `Cli.ImageInfo`.
- Floating point is left out. Spacings, coordinates and overlaps are integers, and `np.round(bs * overlap_factor)` is an integer input `ov`. The one rounding kept is the inversion overlap `round(0.25 * bs)`, modelled exactly as round half to even.
- `_floattuple` is left out because it parses floats.
- Rounding of mapped corners to moving voxels is part of the uninterpreted point map.
- Logging, `print`s and the hard-coded debug dumps of piecewise_transform.py are left out. They have no effect on the results.
- Line 177 of the script is not valid Python: the f-string closes before `has data`. The model treats it as the print evidently intended, which has no effect.
- The argparse set-up, `Client`/`LocalCluster` creation and the dask-config loading are left out. The script model starts from the parsed arguments (`Cli.Args`).
- The hard-coded 3-D loops are lifted to d axes. For d = 3 they are the same loops.
- The distributed point pipeline reads three spatial columns (`CoordinateTransform.SpatialAxes`). The piecewise partition size is one scalar for every axis, as the source uses it.
- `coords_spacing=None` in `distributed_apply_transform_to_coordinates` is left out, because the source then fails on `None[::-1]`. The model takes a spacing.
- `Cli.ParseInt` accepts ASCII digits only. Python's `int()` also accepts other Unicode decimal digits.
- The text of int()'s ValueError quotes the field with `repr`. The model quotes it verbatim, without repr's escaping.
- DistributedTransform.DistributedInvert returns the placements it wrote, which the source never collects: `distributed_invert_displacement_vector_field` has no `return`, so it returns None. What the model promises about the result is the state of the output field.
- DistributedTransform.DistributedApplyTransform returns the placements it wrote, which the source never collects: the source function has no `return`, so it returns None, although its docstring promises the resampled array. What the model promises about the result is the state of the output volume.
- The errors that end `distributed_apply_transform` come back as `Failure`. The source's `as_completed` re-raises a block's exception; the logging of cancelled futures is not modelled.
- Displacement fields are arrays of vectors: the trailing component axis is the element type of a `View`. So the "ndim - 1 spatial axes" crop of the inversion code is the same crop as the resampling crop.

## Findings

| source | as written | input that shows it | evidently intended | confidence | as-written member | corrected member |
|---|---|---|---|---|---|---|
| bigstream/distributed_transform.py:262-267 | the left overlap is dropped only when the extended slice does not start at 0 | overlap factor 1.0 (ov == bs = 128) on an axis of 256: block 1's extended slice starts at 0, is placed at [0,128) over block 0, and [128,256) is never written. The inversion crop (lines 570-574) is the same code, and its overlap factor has no documented bound: axis 25, blocks of 10, overlap 15 leave [10,20) unwritten | drop the left overlap of every block whose tile does not start at 0 | high, not executed | Axis.FullOverlapDuplicatesFirstBlock | Axis.CropByTileRestoresCanonical |
| bigstream/piecewise_transform.py:349-351 | nblocks = ceil(extent / partition_size), without the +1 of distributed_transform.py:347 | points at 0 and 30 with partition_size 30: one cell [0,30), and the point at 30 is in no partition | nblocks = ceil(extent / partition_size + 1) | high, not executed | CoordinatePartitioner.PiecewiseGridLosesBoundaryPoint | CoordinatePartitioner.DistributedGridCovers |
| bigstream/distributed_transform.py:232-234 | the moving slice stops at the largest clipped corner, exclusive | the block [64,256) under the identity reads moving voxels [64,255), missing voxel 255 that its corner maps to | stop one past the largest corner, clipped to the image | medium, not executed | MovingBox.MovingSlicesDropLastVoxel | MovingBox.MovingSlicesInclusive |
| scripts/main_apply_local_transform.py:165-183 | one spacing entry is added for all affine files together | two affine files and a field: three transforms and two spacing entries, so localising the field raises IndexError | one entry of ones per affine file | high, not executed | Cli.TwoAffinesLoseFieldSpacing | Cli.IntendedSpacingCoversAll |
| scripts/main_apply_local_transform.py:139-140 | `is not None` replaces any field spacing, including a given --transform-spacing, by the fixed spacing | --transform-spacing 2,2,2 with fixed spacing 1,1,1: the field spacing becomes 1,1,1,1 | `is None`: fall back to the fixed spacing only when there is no spacing | high, not executed | Cli.TransformSpacingDiscarded | Cli.IntendedFieldSpacingUsesArgument |
| bigstream/distributed_transform.py:140 | `*kwargs` passes the keys of the keyword dict as positional arguments of the partial | any extra keyword, say order=1: each block call is `_transform_single_block(reader, reader, 'order', slices, full_mov_shape=...)`, so block_coords is 'order' and full_mov_shape is given twice, a TypeError for every block | `**kwargs`, so the extra keywords reach apply_transform as the docstring says | high, not executed | DistributedTransform.StarKwargsFailsEveryBlock | DistributedTransform.DoubleStarKwargsReachApplyTransform |
