/** Partitioning a list of points into half-open grid cells, and scattering
    per-cell results back into input order. Both coordinate pipelines build
    their partitions this way; they differ in the grid they lay over the
    points' bounding box. */
module CoordinatePartitioner {
  import opened Wrappers
  import opened Axis
  import opened NdIndex
  import opened MovingBox

  /** Every row has at least d coordinate columns. */
  predicate Rows(pts: seq<seq<int>>, d: nat)
  {
    forall t :: 0 <= t < |pts| ==> |pts[t]| >= d
  }

  /** np.min(pts[:, 0:d], axis=0): a per-axis lower bound of the points. */
  function Lowest(pts: seq<seq<int>>, d: nat): (lo: seq<int>)
    requires |pts| > 0 && Rows(pts, d)
    ensures |lo| == d
    ensures forall t, a :: 0 <= t < |pts| && 0 <= a < d ==> lo[a] <= pts[t][a]
  {
    seq(d, a requires 0 <= a < d => MinAt(pts, a))
  }

  /** np.max(pts[:, 0:d], axis=0): a per-axis upper bound of the points. */
  function Highest(pts: seq<seq<int>>, d: nat): (hi: seq<int>)
    requires |pts| > 0 && Rows(pts, d)
    ensures |hi| == d
    ensures forall t, a :: 0 <= t < |pts| && 0 <= a < d ==> pts[t][a] <= hi[a]
  {
    seq(d, a requires 0 <= a < d => MaxAt(pts, a))
  }

  /** The lower corner of the cell with multi-index idx:
      origin + pitch * idx. */
  function CellLower(origin: seq<int>, pitch: seq<nat>, idx: seq<nat>): (r: seq<int>)
    requires |origin| == |pitch| == |idx|
    ensures |r| == |idx| && forall a :: 0 <= a < |idx| ==> r[a] == origin[a] + pitch[a] * idx[a]
  {
    seq(|idx|, a requires 0 <= a < |idx| => origin[a] + pitch[a] * idx[a])
  }

  /** x lies in the half-open cell [lower, lower + pitch) on every axis of
      the pitch (its further columns are payload). */
  predicate InCell(x: seq<int>, lower: seq<int>, pitch: seq<nat>)
  {
    |lower| == |pitch| <= |x| && forall a :: 0 <= a < |pitch| ==> lower[a] <= x[a] < lower[a] + pitch[a]
  }

  /** The multi-index of the cell that holds x: floor((x - origin) / pitch). */
  function CellOf(x: seq<int>, origin: seq<int>, pitch: seq<nat>): (idx: seq<int>)
    requires |origin| == |pitch| <= |x| && forall a :: 0 <= a < |pitch| ==> pitch[a] > 0
    ensures |idx| == |pitch| && forall a :: 0 <= a < |pitch| ==> idx[a] == FloorDiv(x[a] - origin[a], pitch[a])
  {
    seq(|pitch|, a requires 0 <= a < |pitch| => FloorDiv(x[a] - origin[a], pitch[a]))
  }

  /** The cell multi-index is a multi-index of the grid `nblocks`. */
  predicate InGrid(idx: seq<int>, nblocks: seq<nat>)
  {
    |idx| == |nblocks| && forall a :: 0 <= a < |idx| ==> 0 <= idx[a] < nblocks[a]
  }

  /** x lies in cell idx exactly when idx is x's cell: the cells are disjoint
      and every point has one. */
  lemma {:induction false} CellMembership(x: seq<int>, origin: seq<int>, pitch: seq<nat>, idx: seq<nat>)
    requires |origin| == |pitch| == |idx| <= |x| && forall a :: 0 <= a < |pitch| ==> pitch[a] > 0
    ensures InCell(x, CellLower(origin, pitch, idx), pitch) <==> forall a :: 0 <= a < |idx| ==> CellOf(x, origin, pitch)[a] == idx[a]
  {
    var lower := CellLower(origin, pitch, idx);
    forall a | 0 <= a < |idx|
      ensures lower[a] <= x[a] < lower[a] + pitch[a] <==> FloorDiv(x[a] - origin[a], pitch[a]) == idx[a]
    {
      CellIsQuotient(x[a] - origin[a], pitch[a], idx[a]);
    }
  }

  /** Some point lies in the cell with multi-index idx. */
  predicate Occupied(pts: seq<seq<int>>, origin: seq<int>, pitch: seq<nat>, idx: seq<nat>)
    requires |origin| == |pitch| == |idx|
  {
    |CellMembers(pts, origin, pitch, idx)| > 0
  }

  /** np.nonzero over the first n rows: the indices of the rows in the cell,
      in ascending order. */
  function Members(pts: seq<seq<int>>, n: nat, lower: seq<int>, pitch: seq<nat>): (r: seq<nat>)
    requires n <= |pts|
    ensures forall t :: t in r <==> 0 <= t < n && InCell(pts[t], lower, pitch)
    ensures forall i, j :: 0 <= i < j < |r| ==> r[i] < r[j]
    ensures forall i :: 0 <= i < |r| ==> r[i] < n
  {
    if n == 0 then []
    else Members(pts, n - 1, lower, pitch) + (if InCell(pts[n - 1], lower, pitch) then [n - 1] else [])
  }

  /** The point indices of the cell with multi-index idx. */
  function CellMembers(pts: seq<seq<int>>, origin: seq<int>, pitch: seq<nat>, idx: seq<nat>): (r: seq<nat>)
    requires |origin| == |pitch| == |idx|
    ensures forall t :: t in r <==> 0 <= t < |pts| && InCell(pts[t], CellLower(origin, pitch, idx), pitch)
  {
    Members(pts, |pts|, CellLower(origin, pitch, idx), pitch)
  }

  /** The point indices of each cell, cell by cell. */
  function MembersOfCells(pts: seq<seq<int>>, origin: seq<int>, pitch: seq<nat>, cells: seq<seq<nat>>): (r: seq<seq<nat>>)
    requires |origin| == |pitch| && Indexes(cells, |pitch|)
    ensures |r| == |cells| && forall k :: 0 <= k < |cells| ==> r[k] == CellMembers(pts, origin, pitch, cells[k])
  {
    seq(|cells|, k requires 0 <= k < |cells| => CellMembers(pts, origin, pitch, cells[k]))
  }

  /** Every multi-index has d axes. */
  predicate Indexes(grid: seq<seq<nat>>, d: nat)
  {
    forall k :: 0 <= k < |grid| ==> |grid[k]| == d
  }

  /** The occupied cells of `grid`, in its order: the cells the partition
      keeps. */
  function KeptCells(pts: seq<seq<int>>, origin: seq<int>, pitch: seq<nat>, grid: seq<seq<nat>>): (r: seq<seq<nat>>)
    requires |origin| == |pitch| && Indexes(grid, |pitch|)
    ensures Indexes(r, |pitch|)
    ensures forall k :: 0 <= k < |r| ==> Occupied(pts, origin, pitch, r[k])
  {
    if grid == [] then [] else
      var init, last := grid[..|grid| - 1], grid[|grid| - 1];
      KeptCells(pts, origin, pitch, init) + (if Occupied(pts, origin, pitch, last) then [last] else [])
  }

  /** Kept cells are grid cells holding some point, and every such cell is
      kept. */
  lemma {:induction false} KeptCellsMembers(pts: seq<seq<int>>, origin: seq<int>, pitch: seq<nat>, grid: seq<seq<nat>>, c: seq<nat>)
    requires |origin| == |pitch| && Indexes(grid, |pitch|)
    ensures c in KeptCells(pts, origin, pitch, grid) <==> c in grid && |c| == |pitch| && Occupied(pts, origin, pitch, c)
  {
    if grid != [] {
      var init := grid[..|grid| - 1];
      assert grid == init + [grid[|grid| - 1]];
      KeptCellsMembers(pts, origin, pitch, init, c);
    }
  }

  /** A grid without repeats keeps no cell twice. */
  lemma {:induction false} KeptCellsNoDup(pts: seq<seq<int>>, origin: seq<int>, pitch: seq<nat>, grid: seq<seq<nat>>)
    requires |origin| == |pitch| && Indexes(grid, |pitch|) && NoDup(grid)
    ensures NoDup(KeptCells(pts, origin, pitch, grid))
  {
    if grid != [] {
      var init, last := grid[..|grid| - 1], grid[|grid| - 1];
      assert grid == init + [last];
      KeptCellsNoDup(pts, origin, pitch, init);
      KeptCellsMembers(pts, origin, pitch, init, last);
      NoDupConcat(KeptCells(pts, origin, pitch, init), if Occupied(pts, origin, pitch, last) then [last] else []);
    }
  }

  /** The partition loop of both coordinate pipelines: walk the grid in
      np.ndindex order and keep every cell that holds some point, with the
      indices of its points. */
  method PartitionPoints(pts: seq<seq<int>>, origin: seq<int>, pitch: seq<nat>, nblocks: seq<nat>)
    returns (cells: seq<seq<nat>>, members: seq<seq<nat>>)
    requires |origin| == |pitch| == |nblocks|
    ensures Indexes(Enumerate(nblocks), |pitch|)
    ensures cells == KeptCells(pts, origin, pitch, Enumerate(nblocks))
    ensures members == MembersOfCells(pts, origin, pitch, cells)
    ensures forall k :: 0 <= k < |members| ==> |members[k]| > 0
  {
    var grid := Enumerate(nblocks);
    cells, members := [], [];
    var u := 0;
    while u < |grid|
      invariant 0 <= u <= |grid|
      invariant cells == KeptCells(pts, origin, pitch, grid[..u]) && |members| == |cells|
      invariant forall k :: 0 <= k < |cells| ==> members[k] == CellMembers(pts, origin, pitch, cells[k])
    {
      var index := grid[u];
      var lower := CellLower(origin, pitch, index);
      var pointIndexes := Members(pts, |pts|, lower, pitch);
      assert grid[..u + 1][..u] == grid[..u];
      if |pointIndexes| > 0 {
        cells, members := cells + [index], members + [pointIndexes];
      }
      u := u + 1;
    }
    assert grid[..u] == grid;
  }

  /** `grid` lists every multi-index of `nblocks` exactly once, as
      np.ndindex does. */
  ghost predicate IsGrid(grid: seq<seq<nat>>, nblocks: seq<nat>)
  {
    Indexes(grid, |nblocks|) && NoDup(grid) && forall m :: m in grid <==> InRange(m, nblocks)
  }

  /** np.ndindex order is such a listing. */
  lemma EnumerateIsGrid(nblocks: seq<nat>)
    ensures IsGrid(Enumerate(nblocks), nblocks)
  {
    EnumerateNoDup(nblocks);
    forall m
      ensures m in Enumerate(nblocks) <==> InRange(m, nblocks)
    {
      EnumerateMembers(nblocks, m);
    }
  }

  /** Every point whose cell is in the grid is among the members of a kept
      cell. */
  lemma KeptCellsCover(pts: seq<seq<int>>, origin: seq<int>, pitch: seq<nat>, nblocks: seq<nat>, grid: seq<seq<nat>>, t: nat)
    requires |origin| == |pitch| == |nblocks| && Rows(pts, |pitch|) && forall a :: 0 <= a < |pitch| ==> pitch[a] > 0
    requires IsGrid(grid, nblocks)
    requires t < |pts| && InGrid(CellOf(pts[t], origin, pitch), nblocks)
    ensures var cells := KeptCells(pts, origin, pitch, grid);
      exists k :: 0 <= k < |cells| && t in CellMembers(pts, origin, pitch, cells[k])
  {
    var c := CellOf(pts[t], origin, pitch);
    var idx: seq<nat> := seq(|c|, a requires 0 <= a < |c| => c[a] as nat);
    assert InRange(idx, nblocks);
    CellMembership(pts[t], origin, pitch, idx);
    assert t in CellMembers(pts, origin, pitch, idx);
    var cells := KeptCells(pts, origin, pitch, grid);
    KeptCellsMembers(pts, origin, pitch, grid, idx);
    var k :| 0 <= k < |cells| && cells[k] == idx;
  }

  /** A point listed by some kept cell has its cell in the grid; so a point
      whose cell lies outside the grid is lost. */
  lemma KeptMembersInGrid(pts: seq<seq<int>>, origin: seq<int>, pitch: seq<nat>, nblocks: seq<nat>, grid: seq<seq<nat>>, t: nat)
    requires |origin| == |pitch| == |nblocks| && Rows(pts, |pitch|) && forall a :: 0 <= a < |pitch| ==> pitch[a] > 0
    requires IsGrid(grid, nblocks)
    requires t in Concat(MembersOfCells(pts, origin, pitch, KeptCells(pts, origin, pitch, grid)))
    ensures t < |pts| && InGrid(CellOf(pts[t], origin, pitch), nblocks)
  {
    var cells := KeptCells(pts, origin, pitch, grid);
    var members := MembersOfCells(pts, origin, pitch, cells);
    var k :| 0 <= k < |members| && t in members[k];
    assert t in CellMembers(pts, origin, pitch, cells[k]);
    KeptCellsMembers(pts, origin, pitch, grid, cells[k]);
    CellMembership(pts[t], origin, pitch, cells[k]);
  }

  /** np.concatenate of a list of index arrays. */
  function Concat(xs: seq<seq<nat>>): (r: seq<nat>)
    ensures forall x :: x in r <==> exists k :: 0 <= k < |xs| && x in xs[k]
  {
    if xs == [] then [] else
      var rest := Concat(xs[1..]);
      assert forall k :: 1 <= k < |xs| ==> xs[k] == xs[1..][k - 1];
      xs[0] + rest
  }

  /** Concatenating one more list extends the concatenation by it. */
  lemma {:induction false} ConcatSnoc(xs: seq<seq<nat>>, y: seq<nat>)
    ensures Concat(xs + [y]) == Concat(xs) + y
  {
    if xs != [] {
      assert (xs + [y])[1..] == xs[1..] + [y];
      ConcatSnoc(xs[1..], y);
    }
  }

  /** Growing a prefix by one list extends its concatenation by that list. */
  lemma ConcatPrefix(xs: seq<seq<nat>>, k: nat)
    requires k < |xs|
    ensures Concat(xs[..k + 1]) == Concat(xs[..k]) + xs[k]
  {
    assert xs[..k + 1] == xs[..k] + [xs[k]];
    ConcatSnoc(xs[..k], xs[k]);
  }

  /** Lists without repeats that share no element. */
  predicate Disjoint(xs: seq<seq<nat>>)
  {
    (forall k :: 0 <= k < |xs| ==> NoDup(xs[k])) &&
    forall k, l, x :: 0 <= k < l < |xs| && x in xs[k] ==> x !in xs[l]
  }

  /** Lists without repeats that share no element concatenate to a list
      without repeats. */
  lemma {:induction false} ConcatNoDup(xs: seq<seq<nat>>)
    requires Disjoint(xs)
    ensures NoDup(Concat(xs))
  {
    if xs != [] {
      var tail := xs[1..];
      assert forall k :: 0 <= k < |tail| ==> tail[k] == xs[k + 1];
      ConcatNoDup(tail);
      assert forall x :: x in xs[0] ==> x !in Concat(tail);
      NoDupConcat(xs[0], Concat(tail));
    }
  }

  /** A list without repeats whose elements are exactly 0 .. n-1 has
      length n. */
  lemma {:induction false} PermutationLength(s: seq<nat>, n: nat)
    requires NoDup(s) && forall t: nat :: t in s <==> t < n
    ensures |s| == n
    decreases n
  {
    if n == 0 {
      EmptyWhenNothingIn(s);
    } else {
      assert n - 1 in s;
      var i :| 0 <= i < |s| && s[i] == n - 1;
      RemoveEntry(s, i);
      PermutationLength(s[..i] + s[i + 1..], n - 1);
    }
  }

  /** A list without repeats of numbers below n is at most n long, and
      shorter when one of those numbers is missing from it. */
  lemma {:induction false} NoDupBelow(s: seq<nat>, n: nat)
    requires NoDup(s) && forall t: nat :: t in s ==> t < n
    ensures |s| <= n
    ensures (exists i: nat :: i < n && i !in s) ==> |s| < n
    decreases n
  {
    if n == 0 {
      EmptyWhenNothingIn(s);
    } else if n - 1 in s {
      var i :| 0 <= i < |s| && s[i] == n - 1;
      RemoveEntry(s, i);
      var rest := s[..i] + s[i + 1..];
      NoDupBelow(rest, n - 1);
      if exists m: nat :: m < n && m !in s {
        var m: nat :| m < n && m !in s;
        assert m < n - 1 && m !in rest;
      }
    } else {
      NoDupBelow(s, n - 1);
    }
  }

  /** A list that holds no natural number is empty. */
  lemma EmptyWhenNothingIn(s: seq<nat>)
    requires forall t: nat :: t !in s
    ensures s == []
  {
    assert forall x: nat :: multiset(s)[x] == 0 by {
      forall x: nat
        ensures multiset(s)[x] == 0
      {
        assert x !in s;
      }
    }
    assert multiset(s) == multiset{};
  }

  /** Dropping entry i of a list without repeats drops exactly its value. */
  lemma RemoveEntry(s: seq<nat>, i: nat)
    requires NoDup(s) && i < |s|
    ensures var rest := s[..i] + s[i + 1..];
      NoDup(rest) && |rest| == |s| - 1 && forall t :: t in rest <==> t in s && t != s[i]
  {
    var rest := s[..i] + s[i + 1..];
    assert forall j :: 0 <= j < i ==> rest[j] == s[j];
    assert forall j :: i <= j < |rest| ==> rest[j] == s[j + 1];
    forall j, k | 0 <= j < k < |rest|
      ensures rest[j] != rest[k]
    {
      var j', k' := if j < i then j else j + 1, if k < i then k else k + 1;
      assert rest[j] == s[j'] && rest[k] == s[k'] && j' < k';
    }
    forall t | t in s && t != s[i]
      ensures t in rest
    {
      var j :| 0 <= j < |s| && s[j] == t;
      if j < i {
        assert rest[j] == t;
      } else {
        assert rest[j - 1] == t;
      }
    }
    forall t | t in rest
      ensures t in s && t != s[i]
    {
      var j :| 0 <= j < |rest| && rest[j] == t;
      var j' := if j < i then j else j + 1;
      assert s[j'] == t && j' != i;
    }
  }

  /** A point lies in one cell only. */
  lemma SharedMember(pts: seq<seq<int>>, origin: seq<int>, pitch: seq<nat>, c: seq<nat>, e: seq<nat>, x: nat)
    requires |origin| == |pitch| == |c| == |e| && Rows(pts, |pitch|) && forall a :: 0 <= a < |pitch| ==> pitch[a] > 0
    requires x in CellMembers(pts, origin, pitch, c) && x in CellMembers(pts, origin, pitch, e)
    ensures c == e
  {
    CellMembership(pts[x], origin, pitch, c);
    CellMembership(pts[x], origin, pitch, e);
    assert forall a :: 0 <= a < |c| ==> c[a] == e[a];
  }

  /** When every point's cell is in the grid, the concatenated point
      indices of the kept cells are a permutation of 0 .. N-1: each point
      occurs, exactly once. */
  lemma PartitionIsPermutation(pts: seq<seq<int>>, origin: seq<int>, pitch: seq<nat>, nblocks: seq<nat>, grid: seq<seq<nat>>)
    requires |origin| == |pitch| == |nblocks| && Rows(pts, |pitch|) && forall a :: 0 <= a < |pitch| ==> pitch[a] > 0
    requires IsGrid(grid, nblocks)
    requires forall t :: 0 <= t < |pts| ==> InGrid(CellOf(pts[t], origin, pitch), nblocks)
    ensures var indices := Concat(MembersOfCells(pts, origin, pitch, KeptCells(pts, origin, pitch, grid)));
      NoDup(indices) && (forall t: nat :: t in indices <==> t < |pts|) && |indices| == |pts|
  {
    var members := MembersOfCells(pts, origin, pitch, KeptCells(pts, origin, pitch, grid));
    KeptMembersDisjoint(pts, origin, pitch, grid);
    ConcatNoDup(members);
    KeptMembersCover(pts, origin, pitch, nblocks, grid);
    PermutationLength(Concat(members), |pts|);
  }

  /** The concatenated members are exactly the points, when every point's
      cell is in the grid. */
  lemma KeptMembersCover(pts: seq<seq<int>>, origin: seq<int>, pitch: seq<nat>, nblocks: seq<nat>, grid: seq<seq<nat>>)
    requires |origin| == |pitch| == |nblocks| && Rows(pts, |pitch|) && forall a :: 0 <= a < |pitch| ==> pitch[a] > 0
    requires IsGrid(grid, nblocks)
    requires forall t :: 0 <= t < |pts| ==> InGrid(CellOf(pts[t], origin, pitch), nblocks)
    ensures forall t: nat :: t in Concat(MembersOfCells(pts, origin, pitch, KeptCells(pts, origin, pitch, grid))) <==> t < |pts|
  {
    var cells := KeptCells(pts, origin, pitch, grid);
    var members := MembersOfCells(pts, origin, pitch, cells);
    forall t: nat | t in Concat(members)
      ensures t < |pts|
    {
      var k :| 0 <= k < |members| && t in members[k];
      assert t in CellMembers(pts, origin, pitch, cells[k]);
    }
    forall t: nat | t < |pts|
      ensures t in Concat(members)
    {
      KeptCellsCover(pts, origin, pitch, nblocks, grid, t);
      var k :| 0 <= k < |cells| && t in CellMembers(pts, origin, pitch, cells[k]);
      assert t in members[k];
    }
  }

  /** The member lists of the kept cells have no repeats and share no
      point. */
  lemma KeptMembersDisjoint(pts: seq<seq<int>>, origin: seq<int>, pitch: seq<nat>, grid: seq<seq<nat>>)
    requires |origin| == |pitch| && Rows(pts, |pitch|) && forall a :: 0 <= a < |pitch| ==> pitch[a] > 0
    requires Indexes(grid, |pitch|) && NoDup(grid)
    ensures Disjoint(MembersOfCells(pts, origin, pitch, KeptCells(pts, origin, pitch, grid)))
  {
    KeptCellsNoDup(pts, origin, pitch, grid);
    var cells := KeptCells(pts, origin, pitch, grid);
    var members := MembersOfCells(pts, origin, pitch, cells);
    forall k, l, x | 0 <= k < l < |members| && x in members[k]
      ensures x !in members[l]
    {
      if x in members[l] {
        SharedMember(pts, origin, pitch, cells[k], cells[l], x);
      }
    }
  }

  /** results = np.empty_like(permuted); results[indices] = permuted. Any
      index past the end raises IndexError; otherwise row k of `permuted`
      lands at row indices[k], and with distinct indices every one of them
      survives. */
  method Scatter<R>(indices: seq<nat>, permuted: seq<R>) returns (r: Result<seq<R>>)
    requires |indices| == |permuted|
    ensures r.Failure? <==> exists k :: 0 <= k < |indices| && indices[k] >= |permuted|
    ensures r.Success? ==> |r.value| == |permuted|
    ensures r.Success? && NoDup(indices) ==> forall k :: 0 <= k < |indices| ==> r.value[indices[k]] == permuted[k]
  {
    var k := 0;
    while k < |indices|
      invariant 0 <= k <= |indices| && forall j :: 0 <= j < k ==> indices[j] < |permuted|
    {
      if indices[k] >= |permuted| {
        return Failure("IndexError: index out of bounds");
      }
      k := k + 1;
    }
    var results := new R[|permuted|](i requires 0 <= i < |permuted| => permuted[i]);
    k := 0;
    while k < |indices|
      invariant 0 <= k <= |indices|
      invariant NoDup(indices) ==> forall j :: 0 <= j < k ==> results[indices[j]] == permuted[j]
    {
      results[indices[k]] := permuted[k];
      k := k + 1;
    }
    r := Success(results[..]);
  }

  /** The scatter restores input order: if row k of `permuted` is the
      wanted row of input point indices[k] and the indices are a permutation
      of 0 .. N-1, the scatter succeeds with exactly the wanted rows. */
  lemma ScatterRestoresOrder<R>(indices: seq<nat>, permuted: seq<R>, r: Result<seq<R>>, want: seq<R>)
    requires |indices| == |permuted| == |want| && NoDup(indices)
    requires forall t: nat :: t in indices <==> t < |want|
    requires forall k :: 0 <= k < |indices| ==> indices[k] < |want| && permuted[k] == want[indices[k]]
    requires r.Failure? <==> exists k :: 0 <= k < |indices| && indices[k] >= |permuted|
    requires r.Success? ==> |r.value| == |permuted|
    requires r.Success? && NoDup(indices) ==> forall k :: 0 <= k < |indices| ==> r.value[indices[k]] == permuted[k]
    ensures r == Success(want)
  {
    assert forall k :: 0 <= k < |indices| ==> indices[k] < |permuted|;
    forall i | 0 <= i < |want|
      ensures r.value[i] == want[i]
    {
      assert i in indices;
      var k :| 0 <= k < |indices| && indices[k] == i;
    }
    assert r.value == want;
  }

  /** The grid of distributed_apply_transform_to_coordinates:
      ceil(extent / pitch + 1) cells per axis. */
  function DistributedGrid(lo: seq<int>, hi: seq<int>, pitch: seq<nat>): (n: seq<nat>)
    requires |lo| == |hi| == |pitch| && forall a :: 0 <= a < |pitch| ==> pitch[a] > 0 && lo[a] <= hi[a]
    ensures |n| == |pitch| && forall a :: 0 <= a < |pitch| ==> n[a] == CeilDiv(hi[a] - lo[a], pitch[a]) + 1
  {
    seq(|pitch|, a requires 0 <= a < |pitch| => CeilDiv(hi[a] - lo[a], pitch[a]) + 1)
  }

  /** The grid of piecewise_transform's partitioning: ceil(extent / pitch)
      cells per axis, without the extra cell. */
  function PiecewiseGrid(lo: seq<int>, hi: seq<int>, pitch: seq<nat>): (n: seq<nat>)
    requires |lo| == |hi| == |pitch| && forall a :: 0 <= a < |pitch| ==> pitch[a] > 0 && lo[a] <= hi[a]
    ensures |n| == |pitch| && forall a :: 0 <= a < |pitch| ==> n[a] == CeilDiv(hi[a] - lo[a], pitch[a])
  {
    seq(|pitch|, a requires 0 <= a < |pitch| => CeilDiv(hi[a] - lo[a], pitch[a]))
  }

  /** With the extra cell, the cell of every point between lo and hi is in
      the grid, so no point is lost. */
  lemma DistributedGridCovers(x: seq<int>, lo: seq<int>, hi: seq<int>, pitch: seq<nat>)
    requires |lo| == |hi| == |pitch| <= |x| && forall a :: 0 <= a < |pitch| ==> pitch[a] > 0 && lo[a] <= x[a] <= hi[a]
    ensures InGrid(CellOf(x, lo, pitch), DistributedGrid(lo, hi, pitch))
  {
    forall a | 0 <= a < |pitch|
      ensures 0 <= FloorDiv(x[a] - lo[a], pitch[a]) < CeilDiv(hi[a] - lo[a], pitch[a]) + 1
    {
      FloorBelowCeilOf(x[a] - lo[a], hi[a] - lo[a], pitch[a]);
    }
  }

  lemma {:induction false} FloorBelowCeilOf(x: int, e: int, p: int)
    requires p > 0 && 0 <= x <= e
    ensures 0 <= FloorDiv(x, p) <= CeilDiv(e, p)
  {
    var f, c := FloorDiv(x, p), CeilDiv(e, p);
    if f > c {
      MulMonotone(p, c + 1, f);
      assert false;
    }
  }

  /** x lies below lo + pitch * ceil(extent / pitch) on every axis: below the
      far end of the grid without the extra cell. */
  predicate BelowGridEnd(x: seq<int>, lo: seq<int>, hi: seq<int>, pitch: seq<nat>)
    requires |lo| == |hi| == |pitch| <= |x| && forall a :: 0 <= a < |pitch| ==> pitch[a] > 0
  {
    forall a :: 0 <= a < |pitch| ==> x[a] < lo[a] + pitch[a] * CeilDiv(hi[a] - lo[a], pitch[a])
  }

  /** Without it, a point between lo and hi is in the grid exactly when it
      lies below lo + pitch * ceil(extent / pitch) on every axis: a point at
      the maximum of an axis whose extent is a multiple of the pitch (a zero
      extent included) belongs to no cell. */
  lemma PiecewiseGridCovers(x: seq<int>, lo: seq<int>, hi: seq<int>, pitch: seq<nat>)
    requires |lo| == |hi| == |pitch| <= |x| && forall a :: 0 <= a < |pitch| ==> pitch[a] > 0 && lo[a] <= x[a] <= hi[a]
    ensures InGrid(CellOf(x, lo, pitch), PiecewiseGrid(lo, hi, pitch)) <==> BelowGridEnd(x, lo, hi, pitch)
  {
    forall a | 0 <= a < |pitch|
      ensures 0 <= FloorDiv(x[a] - lo[a], pitch[a]) < CeilDiv(hi[a] - lo[a], pitch[a]) <==>
        x[a] < lo[a] + pitch[a] * CeilDiv(hi[a] - lo[a], pitch[a])
    {
      AxisCovers(x[a] - lo[a], hi[a] - lo[a], pitch[a]);
    }
  }

  /** On one axis, offset x (0 <= x) has a cell below c = ceil(e / p)
      exactly when x < p * c. */
  lemma {:induction false} AxisCovers(x: int, e: int, p: int)
    requires p > 0 && 0 <= x
    ensures FloorDiv(x, p) < CeilDiv(e, p) <==> x < p * CeilDiv(e, p)
  {
    var f, c := FloorDiv(x, p), CeilDiv(e, p);
    if f < c {
      MulMonotone(p, f + 1, c);
    } else if x < p * c {
      MulMonotone(p, c, f);
      assert false;
    }
  }

  /** The lost point: with pitch 30, the points 0 and 30 span one cell,
      [0, 30), and point 30 is in no cell of the piecewise grid; the grid with
      the extra cell holds it. */
  lemma PiecewiseGridLosesBoundaryPoint()
    ensures PiecewiseGrid([0], [30], [30]) == [1]
    ensures CellOf([30], [0], [30]) == [1] && !InGrid([1], [1])
    ensures DistributedGrid([0], [30], [30]) == [2] && InGrid([1], [2])
  {
    assert CeilDiv(30, 30) == 1 && FloorDiv(30, 30) == 1;
    var p, c, d := PiecewiseGrid([0], [30], [30]), CellOf([30], [0], [30]), DistributedGrid([0], [30], [30]);
    assert p[0] == 1 && c[0] == 1 && d[0] == 2;
  }
}
