/** A density grid with a flag per cell and a `used` list: a connected
    "blob" of cells is grown greedily from the densest cell, always taking
    the densest unflagged neighbour of the blob, until the blob holds a
    requested fraction of all points or runs out of neighbours. */
module FlaggedDensity {
  import opened VoxelDensity

  /** Number of set flags. */
  function CountTrue(f: seq<bool>): nat
  {
    if f == [] then 0 else CountTrue(f[..|f| - 1]) + (if f[|f| - 1] then 1 else 0)
  }

  /** Sum of the counts of the flagged cells. */
  function SumFlagged(c: seq<nat>, f: seq<bool>): nat
    requires |c| == |f|
  {
    if f == [] then 0
    else SumFlagged(c[..|c| - 1], f[..|f| - 1]) + (if f[|f| - 1] then c[|c| - 1] else 0)
  }

  /** Every listed index names a cell. */
  predicate AllBelow(s: seq<nat>, n: nat)
  {
    forall k :: 0 <= k < |s| ==> s[k] < n
  }

  /** Sum of the counts of the listed cells. */
  function SumAt(c: seq<nat>, used: seq<nat>): nat
    requires AllBelow(used, |c|)
  {
    if used == [] then 0 else SumAt(c, used[..|used| - 1]) + c[used[|used| - 1]]
  }

  predicate NoDuplicates(s: seq<nat>)
  {
    forall i, j :: 0 <= i < j < |s| ==> s[i] != s[j]
  }

  /** The blob invariant that `getNumFlagged` and `getFlaggedCount` assert:
      the flagged cells are exactly the cells in `used`, each listed once. */
  ghost predicate Consistent(f: seq<bool>, used: seq<nat>)
  {
    && NoDuplicates(used)
    && AllBelow(used, |f|)
    && (forall i :: 0 <= i < |f| ==> (f[i] <==> i in used))
  }

  /** Clearing one set flag removes that cell's count from the flagged sum
      and one from the number of flags. */
  lemma {:induction false} ClearFlag(c: seq<nat>, f: seq<bool>, u: nat)
    requires |c| == |f| && u < |f| && f[u]
    ensures SumFlagged(c, f) == SumFlagged(c, f[u := false]) + c[u]
    ensures CountTrue(f) == CountTrue(f[u := false]) + 1
  {
    var n := |f| - 1;
    var g := f[u := false];
    if u == n {
      assert g[..n] == f[..n];
    } else {
      ClearFlag(c[..n], f[..n], u);
      assert g[..n] == f[..n][u := false];
    }
  }

  /** With no flag set the flagged sum and the number of flags are 0. */
  lemma {:induction false} NoFlags(c: seq<nat>, f: seq<bool>)
    requires |c| == |f| && forall i :: 0 <= i < |f| ==> !f[i]
    ensures SumFlagged(c, f) == 0 && CountTrue(f) == 0
  {
    if f != [] {
      NoFlags(c[..|c| - 1], f[..|f| - 1]);
    }
  }

  /** Under the blob invariant the sum over `used` equals the sum over the
      flagged cells, and `used` is as long as the number of flags: the two
      assertions of `getFlaggedCount` and `getNumFlagged` hold. */
  lemma {:induction false} BlobSums(c: seq<nat>, f: seq<bool>, used: seq<nat>)
    requires |c| == |f| && Consistent(f, used)
    ensures SumAt(c, used) == SumFlagged(c, f)
    ensures CountTrue(f) == |used|
    decreases |used|
  {
    if used == [] {
      NoFlags(c, f);
    } else {
      var m := |used| - 1;
      var u, rest := used[m], used[..m];
      assert u in used;
      var g := f[u := false];
      forall i | 0 <= i < |g|
        ensures g[i] <==> i in rest
      {
        if i == u {
          assert u !in rest;
        } else {
          assert i in used <==> i in rest by {
            assert used == rest + [u];
          }
        }
      }
      BlobSums(c, g, rest);
      ClearFlag(c, f, u);
    }
  }

  /** Flagging an unflagged cell and appending it to `used` keeps the blob
      invariant and adds one to the number of flags. */
  lemma AddToBlob(f: seq<bool>, used: seq<nat>, v: nat)
    requires Consistent(f, used) && v < |f| && !f[v]
    ensures Consistent(f[v := true], used + [v])
    ensures CountTrue(f[v := true]) == CountTrue(f) + 1
  {
    assert v !in used;
    var g := f[v := true];
    assert g[v := false] == f;
    ClearFlag(seq(|f|, _ => 0), g, v);
  }

  /** `c` is a neighbour of some cell listed in `cells`. */
  ghost predicate NeighborOfSome(cells: seq<nat>, c: nat, neighbor: (nat, nat) -> SizeT, numNeighbors: nat)
  {
    exists i, k :: 0 <= i < |cells| && 0 <= k < numNeighbors && neighbor(cells[i], k) == c
  }

  /** Every cell after the first is a neighbour of an earlier one. */
  ghost predicate Connected(used: seq<nat>, neighbor: (nat, nat) -> SizeT, numNeighbors: nat)
  {
    forall j :: 1 <= j < |used| ==> NeighborOfSome(used[..j], used[j], neighbor, numNeighbors)
  }

  /** A blob grown from `start` over the counts `c` with flags `f`:
      consistent, seeded at `start`, connected, every cell non-empty. */
  ghost predicate Blob(c: seq<nat>, f: seq<bool>, used: seq<nat>, start: nat,
                       neighbor: (nat, nat) -> SizeT, numNeighbors: nat)
  {
    && |c| == |f|
    && Consistent(f, used)
    && CountTrue(f) == |used|
    && |used| >= 1 && used[0] == start
    && (forall j :: 0 <= j < |used| ==> c[used[j]] > 0)
    && Connected(used, neighbor, numNeighbors)
  }

  /** `n` names a cell whose flag in `f` is clear. */
  predicate Open(f: seq<bool>, n: nat)
  {
    n < |f| && !f[n]
  }

  /** The flags of a grid of `n` cells whose blob is `blob`. */
  ghost function FlagsOf(n: nat, blob: seq<nat>): seq<bool>
  {
    seq(n, i => i in blob)
  }

  /** `next` is what the neighbour search over the blob `blob` with flags
      `f` picks: an unflagged neighbour of a blob cell whose count is the
      highest among all of them, and the first such in the order blob
      cell, then neighbour, since only a strictly higher count replaces
      the current pick. */
  ghost predicate Densest(c: seq<nat>, f: seq<bool>, blob: seq<nat>, next: nat,
                          neighbor: (nat, nat) -> SizeT, numNeighbors: nat)
    requires |c| == |f|
  {
    && Open(f, next)
    && (forall i, k :: 0 <= i < |blob| && 0 <= k < numNeighbors && Open(f, neighbor(blob[i], k)) ==>
          c[neighbor(blob[i], k)] <= c[next])
    && exists i, k :: 0 <= i < |blob| && 0 <= k < numNeighbors && neighbor(blob[i], k) == next
         && (forall i', k' :: 0 <= i' < i && 0 <= k' < numNeighbors && Open(f, neighbor(blob[i'], k')) ==>
               c[neighbor(blob[i'], k')] < c[next])
         && (forall k' :: 0 <= k' < k && Open(f, neighbor(blob[i], k')) ==>
               c[neighbor(blob[i], k')] < c[next])
  }

  /** Every cell after the first is the one the neighbour search picked
      over the cells before it, flagged as they were then. */
  ghost predicate Greedy(c: seq<nat>, used: seq<nat>, neighbor: (nat, nat) -> SizeT, numNeighbors: nat)
  {
    forall j :: 1 <= j < |used| ==> Densest(c, FlagsOf(|c|, used[..j]), used[..j], used[j], neighbor, numNeighbors)
  }

  /** Under the blob invariant the flags are those of the blob. */
  lemma ConsistentFlags(f: seq<bool>, used: seq<nat>)
    requires Consistent(f, used)
    ensures f == FlagsOf(|f|, used)
  {
  }

  /** Appending the cell the neighbour search picked keeps the blob
      greedy. */
  lemma GreedyGrow(c: seq<nat>, f: seq<bool>, used: seq<nat>, next: nat,
                   neighbor: (nat, nat) -> SizeT, numNeighbors: nat)
    requires |c| == |f| && Consistent(f, used)
    requires Greedy(c, used, neighbor, numNeighbors)
    requires Densest(c, f, used, next, neighbor, numNeighbors)
    ensures Greedy(c, used + [next], neighbor, numNeighbors)
  {
    ConsistentFlags(f, used);
    var s := used + [next];
    forall j | 1 <= j < |s|
      ensures Densest(c, FlagsOf(|c|, s[..j]), s[..j], s[j], neighbor, numNeighbors)
    {
      if j < |used| {
        assert s[..j] == used[..j];
      } else {
        assert s[..j] == used;
      }
    }
  }

  /** Flagging the densest cell starts a blob. */
  lemma BlobStart(c: seq<nat>, f: seq<bool>, start: nat, neighbor: (nat, nat) -> SizeT, numNeighbors: nat)
    requires |c| == |f| && start < |f| && c[start] > 0
    requires forall i :: 0 <= i < |f| ==> !f[i]
    ensures Blob(c, f[start := true], [start], start, neighbor, numNeighbors)
  {
    NoFlags(c, f);
    AddToBlob(f, [], start);
  }

  /** Flagging a non-empty unflagged neighbour of the blob and appending it
      to `used` keeps a blob, one cell longer. */
  lemma BlobGrow(c: seq<nat>, f: seq<bool>, used: seq<nat>, start: nat,
                 neighbor: (nat, nat) -> SizeT, numNeighbors: nat, next: nat)
    requires Blob(c, f, used, start, neighbor, numNeighbors)
    requires next < |f| && !f[next] && c[next] > 0
    requires NeighborOfSome(used, next, neighbor, numNeighbors)
    ensures Blob(c, f[next := true], used + [next], start, neighbor, numNeighbors)
    ensures |used| < |f|
  {
    AddToBlob(f, used, next);
    CountTrueBound(f[next := true]);
    var s := used + [next];
    forall j | 1 <= j < |s|
      ensures NeighborOfSome(s[..j], s[j], neighbor, numNeighbors)
    {
      if j < |used| {
        assert s[..j] == used[..j];
      } else {
        assert s[..j] == used;
      }
    }
  }

  /** The number of flags never exceeds the number of cells. */
  lemma {:induction false} CountTrueBound(f: seq<bool>)
    ensures CountTrue(f) <= |f|
  {
    if f != [] {
      CountTrueBound(f[..|f| - 1]);
    }
  }

  class DensityFlagged {
    /** The density grid this blob is grown on. */
    const grid: Density
    /** One flag per cell: has the cell been used? */
    const flags: array<bool>
    /** Cells of the blob, in the order they were added. */
    var used: seq<nat>
    /** `NUM_NEIGHBORS` and `getCellNeighbor` (defined outside this model):
        the k-th neighbour of a cell, or an index that is not a valid cell. */
    const numNeighbors: nat
    const neighbor: (nat, nat) -> SizeT

    ghost predicate Valid()
      reads this, grid, grid.counts
    {
      grid.Valid() && flags.Length == grid.counts.Length
    }

    ghost predicate BlobConsistent()
      reads this, flags
    {
      Consistent(flags[..], used)
    }

    /** A cell the unflagged-neighbour search may pick: valid and unflagged. */
    ghost predicate Candidate(c: nat)
      reads this, flags
    {
      Open(flags[..], c)
    }

    constructor (w: nat, h: nat, d: nat,
                 minX: real, maxX: real, minY: real, maxY: real, minZ: real, maxZ: real,
                 numNeighbors: nat, neighbor: (nat, nat) -> SizeT)
      requires w < MAX_SIDE && h < MAX_SIDE && d < MAX_SIDE
      requires minX < maxX && minY < maxY && minZ < maxZ
      ensures Valid() && fresh(grid) && fresh(grid.counts) && fresh(flags)
      ensures grid.width == w && grid.height == h && grid.depth == d
      ensures forall i :: 0 <= i < grid.counts.Length ==> grid.counts[i] == 0
      ensures grid.totalPointsInside == 0
      ensures forall i :: 0 <= i < flags.Length ==> !flags[i]
      ensures used == []
      ensures this.numNeighbors == numNeighbors && this.neighbor == neighbor
    {
      var g := new Density(w, h, d, minX, maxX, minY, maxY, minZ, maxZ);
      grid := g;
      flags := new bool[g.counts.Length](_ => false);
      used := [];
      this.numNeighbors := numNeighbors;
      this.neighbor := neighbor;
    }

    /** `isFlagged`. */
    function IsFlagged(i: nat): bool
      reads flags
      requires i < flags.Length
    {
      flags[i]
    }

    /** `setFlag`: writes one flag and nothing else. */
    method SetFlag(i: nat, v: bool := true)
      requires i < flags.Length
      modifies flags
      ensures flags[..] == old(flags[..])[i := v]
    {
      flags[i] := v;
    }

    /** `getNumUsed`. */
    function NumUsed(): nat
      reads this
    {
      |used|
    }

    /** `getUsedIndex`: the i-th cell of the blob; a flagged cell whenever
        the blob invariant holds. */
    function UsedIndex(i: nat): (c: nat)
      reads this, flags
      requires i < |used|
      ensures c in used
      ensures BlobConsistent() ==> c < flags.Length && flags[c]
    {
      used[i]
    }

    /** `getLargest`: the first cell holding the highest count, or
        `badValue()` when every count is 0. */
    method GetLargest() returns (maxIndex: SizeT)
      requires Valid()
      ensures maxIndex == BAD_VALUE <==> forall j :: 0 <= j < grid.counts.Length ==> grid.counts[j] == 0
      ensures maxIndex != BAD_VALUE ==>
        && maxIndex < grid.counts.Length && grid.counts[maxIndex] > 0
        && (forall j :: 0 <= j < grid.counts.Length ==> grid.counts[j] <= grid.counts[maxIndex])
        && (forall j :: 0 <= j < maxIndex ==> grid.counts[j] < grid.counts[maxIndex])
    {
      var counts := grid.counts;
      var max: nat := 0;
      maxIndex := BAD_VALUE;
      for i := 0 to counts.Length
        invariant maxIndex == BAD_VALUE ==> max == 0
        invariant maxIndex != BAD_VALUE ==> maxIndex < i && counts[maxIndex] == max > 0
        invariant forall j :: 0 <= j < i ==> counts[j] <= max
        invariant maxIndex != BAD_VALUE ==> forall j :: 0 <= j < maxIndex ==> counts[j] < max
      {
        if counts[i] > max {
          max := counts[i];
          maxIndex := i;
        }
      }
    }

    /** `getLargestUnflagged`: the first unflagged cell holding the highest
        count among unflagged cells, or `badValue()` when every unflagged
        count is 0. */
    method GetLargestUnflagged() returns (maxIndex: SizeT)
      requires Valid()
      ensures maxIndex == BAD_VALUE <==>
        forall j :: 0 <= j < grid.counts.Length && !flags[j] ==> grid.counts[j] == 0
      ensures maxIndex != BAD_VALUE ==>
        && Candidate(maxIndex) && grid.counts[maxIndex] > 0
        && (forall j :: 0 <= j < grid.counts.Length && !flags[j] ==> grid.counts[j] <= grid.counts[maxIndex])
        && (forall j :: 0 <= j < maxIndex && !flags[j] ==> grid.counts[j] < grid.counts[maxIndex])
    {
      var counts := grid.counts;
      var max: nat := 0;
      maxIndex := BAD_VALUE;
      for i := 0 to counts.Length
        invariant maxIndex == BAD_VALUE ==> max == 0
        invariant maxIndex != BAD_VALUE ==> maxIndex < i && !flags[maxIndex] && counts[maxIndex] == max > 0
        invariant forall j :: 0 <= j < i && !flags[j] ==> counts[j] <= max
        invariant maxIndex != BAD_VALUE ==> forall j :: 0 <= j < maxIndex && !flags[j] ==> counts[j] < max
      {
        if counts[i] > max && !IsFlagged(i) {
          max := counts[i];
          maxIndex := i;
        }
      }
    }

    /** `getLargestNeighbor` as written: the count of each neighbour is
        used as the cell index that is then checked and compared, so the
        result is a neighbour's count (a valid cell whose own count is
        highest among those), not a neighbour. */
    method GetLargestNeighbor(index: SizeT) returns (maxIndex: SizeT)
      requires Valid() && grid.IsValidCell(index)
      requires forall k :: 0 <= k < numNeighbors ==> neighbor(index, k) < grid.counts.Length
      ensures maxIndex == BAD_VALUE ==>
        forall k :: 0 <= k < numNeighbors && grid.IsValidCell(grid.counts[neighbor(index, k)]) ==>
          grid.counts[grid.counts[neighbor(index, k)]] == 0
      ensures maxIndex != BAD_VALUE ==>
        && grid.IsValidCell(maxIndex) && grid.counts[maxIndex] > 0
        && (forall k :: 0 <= k < numNeighbors && grid.IsValidCell(grid.counts[neighbor(index, k)]) ==>
              grid.counts[grid.counts[neighbor(index, k)]] <= grid.counts[maxIndex])
        && (exists k :: 0 <= k < numNeighbors && grid.counts[neighbor(index, k)] == maxIndex &&
              forall k' :: 0 <= k' < k && grid.IsValidCell(grid.counts[neighbor(index, k')]) ==>
                grid.counts[grid.counts[neighbor(index, k')]] < grid.counts[maxIndex])
    {
      var maxVal: nat := 0;
      maxIndex := BAD_VALUE;
      ghost var wit: nat := 0;
      for i := 0 to numNeighbors
        invariant maxIndex == BAD_VALUE ==> maxVal == 0
        invariant maxIndex != BAD_VALUE ==>
          && grid.IsValidCell(maxIndex) && grid.counts[maxIndex] == maxVal > 0
          && wit < i && grid.counts[neighbor(index, wit)] == maxIndex
          && forall k' :: 0 <= k' < wit && grid.IsValidCell(grid.counts[neighbor(index, k')]) ==>
               grid.counts[grid.counts[neighbor(index, k')]] < maxVal
        invariant forall k :: 0 <= k < i && grid.IsValidCell(grid.counts[neighbor(index, k)]) ==>
          grid.counts[grid.counts[neighbor(index, k)]] <= maxVal
      {
        var n := grid.CellCount(neighbor(index, i));
        if grid.IsValidCell(n) {
          var cts := grid.CellCount(n);
          if cts > maxVal {
            maxVal := cts;
            maxIndex := n;
            wit := i;
          }
        }
      }
    }

    /** `getLargestUnflaggedNeighbor`: among the neighbours that are valid
        and unflagged, the first with the highest count above 0, or
        `badValue()` if there is none. */
    method GetLargestUnflaggedNeighbor(index: SizeT) returns (maxIndex: SizeT)
      requires Valid() && grid.IsValidCell(index)
      ensures maxIndex == BAD_VALUE ==>
        forall k :: 0 <= k < numNeighbors && Candidate(neighbor(index, k)) ==>
          grid.counts[neighbor(index, k)] == 0
      ensures maxIndex != BAD_VALUE ==>
        && Candidate(maxIndex) && grid.counts[maxIndex] > 0
        && (forall k :: 0 <= k < numNeighbors && Candidate(neighbor(index, k)) ==>
              grid.counts[neighbor(index, k)] <= grid.counts[maxIndex])
        && (exists k :: 0 <= k < numNeighbors && neighbor(index, k) == maxIndex &&
              forall k' :: 0 <= k' < k && Candidate(neighbor(index, k')) ==>
                grid.counts[neighbor(index, k')] < grid.counts[maxIndex])
    {
      var maxVal: nat := 0;
      maxIndex := BAD_VALUE;
      ghost var wit: nat := 0;
      for i := 0 to numNeighbors
        invariant maxIndex == BAD_VALUE ==> maxVal == 0
        invariant maxIndex != BAD_VALUE ==>
          && Candidate(maxIndex) && grid.counts[maxIndex] == maxVal > 0
          && wit < i && neighbor(index, wit) == maxIndex
          && forall k' :: 0 <= k' < wit && Candidate(neighbor(index, k')) ==>
               grid.counts[neighbor(index, k')] < maxVal
        invariant forall k :: 0 <= k < i && Candidate(neighbor(index, k)) ==>
          grid.counts[neighbor(index, k)] <= maxVal
      {
        var nb := neighbor(index, i);
        if !grid.IsValidCell(nb) || IsFlagged(nb) {
          continue;
        }
        var cts := grid.CellCount(nb);
        if cts > maxVal {
          maxVal := cts;
          maxIndex := nb;
          wit := i;
        }
      }
    }

    /** Every unflagged valid neighbour of the blob is empty. */
    ghost predicate Exhausted()
      reads this, flags, grid, grid.counts
      requires Valid()
    {
      forall i, k :: 0 <= i < |used| && 0 <= k < numNeighbors && Candidate(neighbor(used[i], k)) ==>
        grid.counts[neighbor(used[i], k)] == 0
    }

    /** `getLargestNeighborOfFlagged`: the highest-count unflagged neighbour
        of any cell of the blob, or `badValue()` if every such neighbour is
        empty. */
    method GetLargestNeighborOfFlagged() returns (maxIndex: SizeT)
      requires Valid() && AllBelow(used, grid.counts.Length)
      ensures maxIndex == BAD_VALUE ==> Exhausted()
      ensures maxIndex != BAD_VALUE ==>
        && Densest(grid.counts[..], flags[..], used, maxIndex, neighbor, numNeighbors)
        && grid.counts[maxIndex] > 0
    {
      var max: nat := 0;
      maxIndex := BAD_VALUE;
      ghost var wi: nat, wk: nat := 0, 0;
      for i := 0 to |used|
        invariant SearchedUpTo(i, max, maxIndex, wi, wk)
      {
        max, maxIndex, wi, wk := SearchCell(i, max, maxIndex, wi, wk);
      }
      SearchDone(max, maxIndex, wi, wk);
    }

    /** One pass of the loop of `getLargestNeighborOfFlagged`: the densest
        unflagged neighbour of the `i`-th blob cell replaces the current
        pick only if its count is strictly higher. */
    method SearchCell(i: nat, max: nat, maxIndex: SizeT, ghost wi: nat, ghost wk: nat)
      returns (max': nat, maxIndex': SizeT, ghost wi': nat, ghost wk': nat)
      requires i < |used| && SearchedUpTo(i, max, maxIndex, wi, wk)
      ensures SearchedUpTo(i + 1, max', maxIndex', wi', wk')
    {
      max', maxIndex', wi', wk' := max, maxIndex, wi, wk;
      var localMax := GetLargestUnflaggedNeighbor(used[i]);
      if localMax == BAD_VALUE {
        return;
      }
      if grid.counts[localMax] > max {
        max' := grid.counts[localMax];
        maxIndex' := localMax;
        ghost var k :| 0 <= k < numNeighbors && neighbor(used[i], k) == localMax &&
          forall k' :: 0 <= k' < k && Candidate(neighbor(used[i], k')) ==>
            grid.counts[neighbor(used[i], k')] < grid.counts[localMax];
        wi', wk' := i, k;
      }
    }

    /** Once every blob cell has been searched, the pick is the densest
        unflagged neighbour of the blob, or there is none. */
    lemma SearchDone(max: nat, maxIndex: SizeT, wi: nat, wk: nat)
      requires SearchedUpTo(|used|, max, maxIndex, wi, wk)
      ensures maxIndex == BAD_VALUE ==> Exhausted()
      ensures maxIndex != BAD_VALUE ==>
        && Densest(grid.counts[..], flags[..], used, maxIndex, neighbor, numNeighbors)
        && grid.counts[maxIndex] > 0
    {
    }

    /** The state of the search of `getLargestNeighborOfFlagged` after the
        first `n` cells of the blob: `maxIndex`, found as the `wk`-th
        neighbour of the `wi`-th cell, is the first unflagged neighbour
        with the highest count `max` seen so far. */
    ghost predicate SearchedUpTo(n: nat, max: nat, maxIndex: SizeT, wi: nat, wk: nat)
      reads this, flags, grid, grid.counts
    {
      && Valid() && AllBelow(used, grid.counts.Length) && n <= |used|
      && (maxIndex == BAD_VALUE ==> max == 0)
      && (maxIndex != BAD_VALUE ==>
            && Candidate(maxIndex) && grid.counts[maxIndex] == max > 0
            && wi < n && wk < numNeighbors && neighbor(used[wi], wk) == maxIndex
            && (forall i', k' :: 0 <= i' < wi && 0 <= k' < numNeighbors && Candidate(neighbor(used[i'], k')) ==>
                  grid.counts[neighbor(used[i'], k')] < max)
            && (forall k' :: 0 <= k' < wk && Candidate(neighbor(used[wi], k')) ==>
                  grid.counts[neighbor(used[wi], k')] < max))
      && forall i', k :: 0 <= i' < n && 0 <= k < numNeighbors && Candidate(neighbor(used[i'], k)) ==>
           grid.counts[neighbor(used[i'], k)] <= max
    }

    /** `getNumFlagged`: the number of flagged cells, which the source
        asserts equals the length of `used`. */
    method GetNumFlagged() returns (cnt: nat)
      requires Valid() && CountTrue(flags[..]) == |used|
      ensures cnt == CountTrue(flags[..]) && cnt == |used|
    {
      cnt := 0;
      for i := 0 to flags.Length
        invariant cnt == CountTrue(flags[..i])
      {
        assert flags[..i + 1][..i] == flags[..i];
        if IsFlagged(i) {
          cnt := cnt + 1;
        }
      }
      assert flags[..flags.Length] == flags[..];
    }

    /** `getFlaggedCount`: the sum of the counts of the cells in `used`,
        which the source asserts equals the sum over the flagged cells. */
    method GetFlaggedCount() returns (cnt: nat)
      requires Valid() && AllBelow(used, grid.counts.Length)
      requires SumAt(grid.counts[..], used) == SumFlagged(grid.counts[..], flags[..])
      ensures cnt == SumAt(grid.counts[..], used)
      ensures cnt == SumFlagged(grid.counts[..], flags[..])
    {
      cnt := 0;
      for i := 0 to |used|
        invariant cnt == SumAt(grid.counts[..], used[..i])
      {
        assert used[..i + 1][..i] == used[..i];
        cnt := cnt + grid.counts[used[i]];
      }
      assert used[..|used|] == used;
    }

    /** The count `buildBlob` grows the blob to: `percent` of the points
        inside the grid, converted to `size_t`. */
    function BlobTarget(percent: real): SizeT
      reads grid
    {
      ToSizeT(percent * grid.totalPointsInside as real)
    }

    /** `buildBlob`: flags the densest cell, then keeps flagging the
        densest unflagged neighbour of the blob until the blob's counts
        reach `size_t(percent * getCountInside())` or no such neighbour
        is left. */
    method BuildBlob(percent: real)
      requires Valid()
      requires used == [] && forall i :: 0 <= i < flags.Length ==> !flags[i]
      requires exists i :: 0 <= i < grid.counts.Length && grid.counts[i] > 0
      modifies this`used, flags
      ensures Valid()
      ensures exists start: nat ::
        && Blob(grid.counts[..], flags[..], used, start, neighbor, numNeighbors)
        && (forall j :: 0 <= j < grid.counts.Length ==>
              grid.counts[j] <= grid.counts[start] && (j < start ==> grid.counts[j] < grid.counts[start]))
      ensures Greedy(grid.counts[..], used, neighbor, numNeighbors)
      ensures SumAt(grid.counts[..], used) >= BlobTarget(percent) || Exhausted()
      ensures |used| > 1 ==> SumAt(grid.counts[..], used[..|used| - 1]) < BlobTarget(percent)
    {
      NoFlags(grid.counts[..], flags[..]);
      var numFlagged := GetNumFlagged();
      var maxCount := BlobTarget(percent);

      var start := GetLargest();
      BlobStart(grid.counts[..], flags[..], start, neighbor, numNeighbors);
      SetFlag(start);
      used := used + [start];
      GrowBlob(start, maxCount);
    }

    /** The growth loop of `buildBlob`: while the blob's counts stay below
        `maxCount`, flag the densest unflagged neighbour of the blob. */
    method GrowBlob(ghost start: nat, maxCount: SizeT)
      requires Valid() && Blob(grid.counts[..], flags[..], used, start, neighbor, numNeighbors)
      requires Greedy(grid.counts[..], used, neighbor, numNeighbors)
      requires |used| > 1 ==> SumAt(grid.counts[..], used[..|used| - 1]) < maxCount
      modifies this`used, flags
      ensures Valid() && Blob(grid.counts[..], flags[..], used, start, neighbor, numNeighbors)
      ensures Greedy(grid.counts[..], used, neighbor, numNeighbors)
      ensures SumAt(grid.counts[..], used) >= maxCount || Exhausted()
      ensures |used| > 1 ==> SumAt(grid.counts[..], used[..|used| - 1]) < maxCount
    {
      while true
        invariant Growing(start, maxCount)
        decreases flags.Length - |used|
      {
        var done := GrowStep(start, maxCount);
        if done {
          break;
        }
      }
    }

    /** One pass of the growth loop: stop once the blob's counts reach
        `maxCount` or no non-empty unflagged neighbour is left, otherwise
        flag the densest one. */
    method GrowStep(ghost start: nat, maxCount: SizeT) returns (done: bool)
      requires Growing(start, maxCount)
      modifies this`used, flags
      ensures Growing(start, maxCount)
      ensures done ==> SumAt(grid.counts[..], used) >= maxCount || Exhausted()
      ensures !done ==> old(|used|) < |used| <= flags.Length
    {
      BlobSums(grid.counts[..], flags[..], used);
      var flaggedCount := GetFlaggedCount();
      if !(maxCount > flaggedCount) {
        return true;
      }
      var next := GetLargestNeighborOfFlagged();
      if BAD_VALUE == next {
        return true;
      }
      FlagAndUse(next, start, maxCount);
      return false;
    }

    /** The invariant of the growth loop of `buildBlob`: a greedy blob
        that held less than `maxCount` before its last cell was added. */
    ghost predicate Growing(start: nat, maxCount: nat)
      reads this, flags, grid, grid.counts
    {
      && Valid()
      && Blob(grid.counts[..], flags[..], used, start, neighbor, numNeighbors)
      && Greedy(grid.counts[..], used, neighbor, numNeighbors)
      && (|used| > 1 ==> SumAt(grid.counts[..], used[..|used| - 1]) < maxCount)
    }

    /** One growth step of `buildBlob`: flag the chosen neighbour and
        append it to `used`, which keeps the blob a blob. */
    method FlagAndUse(next: SizeT, ghost start: nat, ghost below: nat)
      requires Valid() && Blob(grid.counts[..], flags[..], used, start, neighbor, numNeighbors)
      requires Greedy(grid.counts[..], used, neighbor, numNeighbors)
      requires Densest(grid.counts[..], flags[..], used, next, neighbor, numNeighbors)
      requires grid.counts[next] > 0
      requires SumAt(grid.counts[..], used) < below
      modifies this`used, flags
      ensures Valid()
      ensures flags[..] == old(flags[..])[next := true] && used == old(used) + [next]
      ensures Blob(grid.counts[..], flags[..], used, start, neighbor, numNeighbors)
      ensures Greedy(grid.counts[..], used, neighbor, numNeighbors)
      ensures |used| <= flags.Length
      ensures SumAt(grid.counts[..], used[..|used| - 1]) < below
    {
      BlobGrow(grid.counts[..], flags[..], used, start, neighbor, numNeighbors, next);
      GreedyGrow(grid.counts[..], flags[..], used, next, neighbor, numNeighbors);
      SetFlag(next);
      ghost var before := used;
      used := used + [next];
      assert used[..|used| - 1] == before;
    }
  }
}
