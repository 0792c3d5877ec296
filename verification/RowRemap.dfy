/**
 `generate_row_remap_array`: inside every segment, the rows are reordered so that each rank's rows
 (those congruent to the rank modulo the world size) become one contiguous slice.
 */
module RowRemap {
  import opened Arith
  import opened Sequences
  import opened StableSort

  /** Outcome of building the map; IndexError stands for torch rejecting an index out of range. */
  datatype Outcome = Remap(remap: seq<int>) | SizeMismatch | IndexError

  function Residues(lo: nat, n: nat, world: nat): seq<int>
    requires world > 0
  {
    seq(n, i => (lo + i) % world)
  }

  /** Rows lo .. lo+n-1 stably sorted by residue. */
  function Chunk(lo: nat, n: nat, world: nat): (r: seq<int>)
    requires world > 0
    ensures |r| == n
    ensures forall i :: 0 <= i < n ==> lo <= r[i] < lo + n
  {
    var idx := StableSortIndices(Residues(lo, n, world));
    seq(n, i requires 0 <= i < n => lo + idx[i])
  }

  function ChunkStart(bm: nat, sList: seq<nat>, k: nat): nat
    requires k <= |sList|
  {
    MulNonneg(Sum(sList[..k]), bm);
    Sum(sList[..k]) * bm
  }

  /** The chunks of the first k segments, one after the other. */
  function Reordered(bm: nat, sList: seq<nat>, world: nat, k: nat): (r: seq<int>)
    requires world > 0 && k <= |sList|
    ensures |r| == ChunkStart(bm, sList, k)
  {
    if k == 0 then []
    else
      ChunkStartNext(bm, sList, k - 1);
      Reordered(bm, sList, world, k - 1) + Chunk(ChunkStart(bm, sList, k - 1), sList[k - 1] * bm, world)
  }

  lemma ChunkStartNext(bm: nat, sList: seq<nat>, k: nat)
    requires k < |sList|
    ensures 0 <= sList[k] * bm
    ensures ChunkStart(bm, sList, k + 1) == ChunkStart(bm, sList, k) + sList[k] * bm
  {
    MulNonneg(sList[k], bm);
    SumSnoc(sList, k);
  }

  lemma {:induction false} ChunkStartMonotone(bm: nat, sList: seq<nat>, j: nat, k: nat)
    requires j <= k <= |sList|
    ensures ChunkStart(bm, sList, j) <= ChunkStart(bm, sList, k)
    decreases k - j
  {
    if j < k {
      ChunkStartNext(bm, sList, k - 1);
      ChunkStartMonotone(bm, sList, j, k - 1);
    }
  }

  /** Segment k of the reordered rows is exactly the chunk of segment k. */
  lemma {:induction false} SegmentOfReordered(bm: nat, sList: seq<nat>, world: nat, k: nat, n: nat)
    requires world > 0 && k < n <= |sList|
    ensures 0 <= sList[k] * bm
    ensures ChunkStart(bm, sList, k) + sList[k] * bm <= |Reordered(bm, sList, world, n)|
    ensures Reordered(bm, sList, world, n)[ChunkStart(bm, sList, k)..][..sList[k] * bm]
         == Chunk(ChunkStart(bm, sList, k), sList[k] * bm, world)
    decreases n
  {
    ChunkStartNext(bm, sList, k);
    ChunkStartNext(bm, sList, n - 1);
    ChunkStartMonotone(bm, sList, k + 1, n);
    if k < n - 1 {
      ChunkStartMonotone(bm, sList, k + 1, n - 1);
      SegmentOfReordered(bm, sList, world, k, n - 1);
      var a := Reordered(bm, sList, world, n - 1);
      var b := Reordered(bm, sList, world, n);
      var lo, len := ChunkStart(bm, sList, k), sList[k] * bm;
      assert a[lo..][..len] == b[lo..][..len];
    }
  }

  // ---------- the rows of one rank are contiguous ----------

  /** Smallest row at or after lo that is congruent to rank modulo world. */
  function FirstRow(lo: nat, rank: nat, world: nat): (r: int)
    requires rank < world
    ensures lo <= r < lo + world
  {
    lo + (rank - lo) % world
  }

  lemma FirstRowResidue(lo: nat, rank: nat, world: nat, j: nat)
    requires rank < world
    ensures (FirstRow(lo, rank, world) + j * world) % world == rank
  {
    var q := (rank - lo) / world;
    assert lo + (rank - lo) % world == rank - q * world;
    DivModUnique(FirstRow(lo, rank, world) + j * world, j - q, rank, world);
  }

  /** The claimed order, as offsets from lo: rank by rank, each rank's rows in increasing order. */
  function ByRankAt(lo: nat, world: nat, rank: nat, j: nat): int
    requires rank < world
  {
    FirstRow(lo, rank, world) - lo + j * world
  }

  lemma ByRankRange(lo: nat, m: nat, world: nat, rank: nat, j: nat)
    requires rank < world && j < m
    ensures 0 <= ByRankAt(lo, world, rank, j) < m * world
    ensures (lo + ByRankAt(lo, world, rank, j)) % world == rank
  {
    PairBound(j, FirstRow(lo, rank, world) - lo, m, world);
    FirstRowResidue(lo, rank, world, j);
  }

  lemma Digits(p: nat, m: nat, world: nat)
    requires p < m * world
    ensures m > 0 && 0 <= p / m < world && 0 <= p % m < m && p == (p / m) * m + p % m
  {
  }

  lemma DigitsOrdered(p: nat, q: nat, m: nat)
    requires p < q && m > 0
    ensures p / m < q / m || (p / m == q / m && p % m < q % m)
  {
    DivBounds(p, m);
    DivBounds(q, m);
    if p / m > q / m {
      MulLe(q / m + 1, p / m, m);
    }
  }

  function ByRank(lo: nat, m: nat, world: nat): (e: seq<int>)
    requires world > 0
    ensures |e| == m * world
  {
    MulNonneg(m, world);
    seq(m * world, p requires 0 <= p < m * world => (Digits(p, m, world); ByRankAt(lo, world, p / m, p % m)))
  }

  lemma ByRankEntry(lo: nat, m: nat, world: nat, p: nat)
    requires world > 0 && p < m * world
    ensures m > 0 && p / m < world && ByRank(lo, m, world)[p] == ByRankAt(lo, world, p / m, p % m)
    ensures 0 <= ByRank(lo, m, world)[p] < m * world
    ensures (lo + ByRank(lo, m, world)[p]) % world == p / m
  {
    Digits(p, m, world);
    ByRankRange(lo, m, world, p / m, p % m);
  }

  lemma ByRankAtGrows(lo: nat, world: nat, rank: nat, j: nat, j': nat)
    requires rank < world && j < j'
    ensures ByRankAt(lo, world, rank, j) < ByRankAt(lo, world, rank, j')
  {
  }

  lemma ByRankOrdered(lo: nat, m: nat, world: nat, n: nat, p: nat, q: nat)
    requires world > 0 && n == m * world && p < q < n
    ensures 0 <= ByRank(lo, m, world)[p] < n && 0 <= ByRank(lo, m, world)[q] < n
    ensures Before(Residues(lo, n, world), ByRank(lo, m, world)[p], ByRank(lo, m, world)[q])
  {
    ByRankEntry(lo, m, world, p);
    ByRankEntry(lo, m, world, q);
    DigitsOrdered(p, q, m);
    if p / m == q / m {
      ByRankAtGrows(lo, world, p / m, p % m, q % m);
    }
  }

  lemma ByRankIsSort(lo: nat, m: nat, world: nat, n: nat)
    requires world > 0 && n == m * world
    ensures IsStableSort(Residues(lo, n, world), ByRank(lo, m, world))
  {
    var e := ByRank(lo, m, world);
    forall i | 0 <= i < n ensures 0 <= e[i] < n {
      ByRankEntry(lo, m, world, i);
    }
    forall i, j | 0 <= i < j < n ensures Before(Residues(lo, n, world), e[i], e[j]) {
      ByRankOrdered(lo, m, world, n, i, j);
    }
  }

  /** With world | n, the stable sort lists the rows rank by rank. */
  lemma ChunkIsByRank(lo: nat, m: nat, world: nat, n: nat, rank: nat, j: nat, p: nat)
    requires world > 0 && n == m * world && rank < world && j < m && p == rank * m + j
    ensures p < n && Chunk(lo, n, world)[p] == FirstRow(lo, rank, world) + j * world
  {
    PairBound(rank, j, world, m);
    DivModUnique(p, rank, j, m);
    ByRankIsSort(lo, m, world, n);
    StableSortUnique(Residues(lo, n, world), ByRank(lo, m, world));
    ByRankEntry(lo, m, world, p);
  }

  /** Place p of segment k of the reordered rows. */
  lemma SegmentEntry(bm: nat, sList: seq<nat>, world: nat, k: nat, start: nat, n: nat, p: nat)
    requires world > 0 && k < |sList| && start == ChunkStart(bm, sList, k) && n == sList[k] * bm && p < n
    ensures start + p < |Reordered(bm, sList, world, |sList|)|
    ensures Reordered(bm, sList, world, |sList|)[start + p] == Chunk(start, n, world)[p]
  {
    SegmentOfReordered(bm, sList, world, k, |sList|);
    EntryOfSlice(Reordered(bm, sList, world, |sList|), start, n, p);
  }

  /** Slice `rank` of segment k holds, at place j, the j-th row of that rank in the segment. */
  lemma RankSlice(bm: nat, sList: seq<nat>, world: nat, k: nat, m: nat, start: nat, rank: nat, j: nat)
    requires k < |sList| && rank < world && j < m && sList[k] * bm == m * world
    requires start == ChunkStart(bm, sList, k)
    ensures 0 <= start + (rank * m + j) < |Reordered(bm, sList, world, |sList|)|
    ensures Reordered(bm, sList, world, |sList|)[start + (rank * m + j)] == FirstRow(start, rank, world) + j * world
  {
    ghost var n: nat :| n == sList[k] * bm;
    MulNonneg(rank, m);
    ghost var p: nat :| p == rank * m + j;
    ChunkIsByRank(start, m, world, n, rank, j, p);
    SegmentEntry(bm, sList, world, k, start, n, p);
  }

  lemma EntryOfSlice(s: seq<int>, lo: nat, n: nat, p: nat)
    requires lo + n <= |s| && p < n
    ensures s[lo..][..n][p] == s[lo + p]
  {
  }

  /** Those rows are all the rows of the rank in the segment. */
  lemma RowsOfRank(lo: nat, m: nat, world: nat, rank: nat, x: int)
    requires rank < world
    ensures lo <= x < lo + m * world && x % world == rank <==>
            exists j: nat :: j < m && IsRow(lo, world, rank, j, x)
  {
    var first := FirstRow(lo, rank, world);
    if lo <= x < lo + m * world && x % world == rank {
      FirstRowResidue(lo, rank, world, 0);
      var j := x / world - first / world;
      assert x == first + j * world;
      RowIndexRange(first - lo, j, world, m);
      assert IsRow(lo, world, rank, j, x);
    }
    if j: nat :| j < m && IsRow(lo, world, rank, j, x) {
      FirstRowResidue(lo, rank, world, j);
      PairBound(j, first - lo, m, world);
    }
  }

  predicate IsRow(lo: nat, world: nat, rank: nat, j: nat, x: int)
    requires rank < world
  {
    x == FirstRow(lo, rank, world) + j * world
  }

  lemma RowIndexRange(d: int, j: int, world: nat, m: nat)
    requires 0 <= d < world && 0 <= d + j * world < m * world
    ensures 0 <= j < m
  {
  }

  // ---------- permutation ----------

  /** A chunk lists each of its rows once. */
  lemma ChunkInjective(lo: nat, n: nat, world: nat)
    requires world > 0
    ensures Injective(Chunk(lo, n, world))
  {
  }

  lemma {:induction false} ReorderedIsPermutation(bm: nat, sList: seq<nat>, world: nat, k: nat)
    requires world > 0 && k <= |sList|
    ensures IsPermutation(Reordered(bm, sList, world, k))
  {
    if k > 0 {
      ReorderedIsPermutation(bm, sList, world, k - 1);
      ChunkStartNext(bm, sList, k - 1);
      ChunkInjective(ChunkStart(bm, sList, k - 1), sList[k - 1] * bm, world);
    }
  }

  // ---------- which rows the chunks cover ----------

  function Rows(mSize: nat, nSize: nat, bn: nat): nat
    requires bn > 0
  {
    MulNonneg(mSize, nSize);
    DivBounds(mSize * nSize, bn);
    mSize * nSize / bn
  }

  function TotalTiles(mSize: nat, nSize: nat, bm: nat, bn: nat): nat
    requires bm > 0 && bn > 0
  {
    MulNonneg(mSize, nSize);
    MulPos(bm, bn);
    DivBounds(mSize * nSize, bm * bn);
    mSize * nSize / (bm * bn)
  }

  /** Dividing twice is dividing by the product. */
  lemma DivNested(x: nat, bn: nat, bm: nat)
    requires bn > 0 && bm > 0
    ensures bm * bn > 0 && x / (bm * bn) == x / bn / bm
  {
    MulPos(bm, bn);
    DivBounds(x, bn);
    var rows := x / bn;
    var q, r := rows / bm, rows % bm;
    PairBound(r, x % bn, bm, bn);
    SplitTwice(x, bn, bm, q, r, x % bn, rows);
    DivModUnique(x, q, r * bn + x % bn, bm * bn);
  }

  lemma SplitTwice(x: int, bn: int, bm: int, q: int, r: int, c: int, rows: int)
    requires x == rows * bn + c && rows == q * bm + r
    ensures x == q * (bm * bn) + (r * bn + c)
  {
  }

  /** The chunks stay inside the row range, and cover all of it exactly when bm divides the row count. */
  lemma ChunksCoverRows(mSize: nat, nSize: nat, bm: nat, bn: nat, sList: seq<nat>)
    requires bm > 0 && bn > 0 && Sum(sList) == TotalTiles(mSize, nSize, bm, bn)
    ensures ChunkStart(bm, sList, |sList|) <= Rows(mSize, nSize, bn)
    ensures ChunkStart(bm, sList, |sList|) == Rows(mSize, nSize, bn) <==> Rows(mSize, nSize, bn) % bm == 0
  {
    MulNonneg(mSize, nSize);
    DivNested(mSize * nSize, bn, bm);
    assert sList[..|sList|] == sList;
    WholeMultiple(Sum(sList), Rows(mSize, nSize, bn), bm);
  }

  lemma WholeMultiple(q: nat, rows: nat, bm: nat)
    requires bm > 0 && q == rows / bm
    ensures q * bm <= rows && (q * bm == rows <==> rows % bm == 0)
  {
  }

  /** The reordered row ids once every chunk is written: what no chunk wrote is uninitialised memory. */
  ghost function FinalRows(bm: nat, sList: seq<nat>, world: nat, uninitialised: seq<int>): (r: seq<int>)
    requires world > 0 && ChunkStart(bm, sList, |sList|) <= |uninitialised|
    ensures |r| == |uninitialised|
  {
    Reordered(bm, sList, world, |sList|) + uninitialised[ChunkStart(bm, sList, |sList|)..]
  }

  ghost predicate IndicesFit(rows: seq<int>) {
    forall i :: 0 <= i < |rows| ==> -|rows| <= rows[i] < |rows|
  }

  ghost predicate IsInverse(remap: seq<int>, rows: seq<int>) {
    |remap| == |rows| && forall i :: 0 <= i < |rows| ==> 0 <= rows[i] < |remap| && remap[rows[i]] == i
  }

  lemma PermutationIffCovered(bm: nat, sList: seq<nat>, world: nat, rows: nat)
    requires world > 0 && ChunkStart(bm, sList, |sList|) <= rows
    ensures ChunkStart(bm, sList, |sList|) == rows <==>
            forall memory: seq<int> :: |memory| == rows ==> IsPermutation(FinalRows(bm, sList, world, memory))
  {
    var done := ChunkStart(bm, sList, |sList|);
    if done == rows {
      ReorderedIsPermutation(bm, sList, world, |sList|);
      forall memory: seq<int> | |memory| == rows ensures IsPermutation(FinalRows(bm, sList, world, memory)) {
        assert FinalRows(bm, sList, world, memory) == Reordered(bm, sList, world, |sList|);
      }
    } else {
      var memory := seq(rows, i => rows);
      assert FinalRows(bm, sList, world, memory)[done] == rows;
    }
  }

  /** The reordered rows are a permutation whatever the memory held, if and only if bm divides the row count. */
  lemma PermutationIffWholeTiles(mSize: nat, nSize: nat, bm: nat, bn: nat, sList: seq<nat>, world: nat)
    requires bm > 0 && bn > 0 && world > 0 && Sum(sList) == TotalTiles(mSize, nSize, bm, bn)
    ensures ChunkStart(bm, sList, |sList|) <= Rows(mSize, nSize, bn)
    ensures Rows(mSize, nSize, bn) % bm == 0 <==>
            forall memory: seq<int> :: |memory| == Rows(mSize, nSize, bn) ==>
              IsPermutation(FinalRows(bm, sList, world, memory))
  {
    ChunksCoverRows(mSize, nSize, bm, bn, sList);
    PermutationIffCovered(bm, sList, world, Rows(mSize, nSize, bn));
  }

  /** The map sends the j-th row of a rank in segment k to place j of that rank's slice. */
  lemma RemapGathersRanks(bm: nat, sList: seq<nat>, world: nat, memory: seq<int>, remap: seq<int>,
                          k: nat, m: nat, start: nat, rank: nat, j: nat)
    requires k < |sList| && rank < world && j < m && sList[k] * bm == m * world
    requires start == ChunkStart(bm, sList, k) && ChunkStart(bm, sList, |sList|) <= |memory|
    requires IsInverse(remap, FinalRows(bm, sList, world, memory))
    ensures 0 <= FirstRow(start, rank, world) + j * world < |remap|
    ensures remap[FirstRow(start, rank, world) + j * world] == start + (rank * m + j)
  {
    RankSlice(bm, sList, world, k, m, start, rank, j);
    var place := start + (rank * m + j);
    assert FinalRows(bm, sList, world, memory)[place] == Reordered(bm, sList, world, |sList|)[place];
  }

  /** The map never moves a row out of its segment. */
  lemma RemapStaysInSegment(bm: nat, sList: seq<nat>, world: nat, memory: seq<int>, remap: seq<int>,
                            k: nat, start: nat, n: nat, x: nat)
    requires world > 0 && k < |sList| && start == ChunkStart(bm, sList, k) && n == sList[k] * bm
    requires ChunkStart(bm, sList, |sList|) <= |memory|
    requires IsInverse(remap, FinalRows(bm, sList, world, memory))
    requires start <= x < start + n
    ensures x < |remap| && start <= remap[x] < start + n
  {
    var idx := StableSortIndices(Residues(start, n, world));
    SortIsPermutation(Residues(start, n, world), idx);
    var p := PermutationReaches(idx, x - start);
    assert Chunk(start, n, world)[p] == x;
    SegmentEntry(bm, sList, world, k, start, n, p);
    assert FinalRows(bm, sList, world, memory)[start + p] == x;
  }

  /** The row that an entry names: torch counts a negative index from the end. */
  function NamedRow(row: int, rows: nat): int {
    if row < 0 then row + rows else row
  }

  /** The map holds, at the row that entry i names, a position that names this row: entry i's own when no
      other entry does, one of them otherwise (the order of the scatter is unspecified). */
  ghost predicate HoldsPosition(remap: seq<int>, rows: seq<int>, i: nat)
    requires i < |rows|
  {
    var row := NamedRow(rows[i], |rows|);
    && 0 <= row < |remap| && 0 <= remap[row] < |rows|
    && NamedRow(rows[remap[row]], |rows|) == row
  }

  ghost predicate IsScattered(remap: seq<int>, rows: seq<int>) {
    |remap| == |rows| && forall i: nat :: i < |rows| ==> HoldsPosition(remap, rows, i)
  }

  /** For a permutation that is the inverse. */
  lemma ScatteredIsInverse(remap: seq<int>, rows: seq<int>)
    requires IsScattered(remap, rows) && IsPermutation(rows)
    ensures IsInverse(remap, rows)
  {
    forall i: nat | i < |rows| ensures remap[rows[i]] == i {
      assert HoldsPosition(remap, rows, i);
    }
  }

  /** `remap[reordered] = arange`. */
  method ScatterPositions(reordered: array<int>) returns (r: Outcome)
    ensures r == IndexError <==> !IndicesFit(reordered[..])
    ensures r != SizeMismatch
    ensures r.Remap? ==> IsScattered(r.remap, reordered[..])
  {
    var rows := reordered.Length;
    var remap := new int[rows];
    var i := 0;
    while i < rows
      invariant i <= rows
      invariant forall k :: 0 <= k < i ==> -rows <= reordered[k] < rows
      invariant forall k: nat :: k < i ==> Placed(reordered[..], remap[..], k, i)
    {
      var row := reordered[i];
      assert reordered[..][i] == row;
      if row < -rows || row >= rows {
        return IndexError;
      }
      ghost var before := remap[..];
      var at := if row < 0 then row + rows else row;
      remap[at] := i;
      assert remap[..] == before[at := i];
      ghost var next := i + 1;
      forall k: nat | k <= i ensures Placed(reordered[..], remap[..], k, next) {
        assert k < i ==> Placed(reordered[..], before, k, i);
      }
      i := i + 1;
    }
    assert forall k :: 0 <= k < rows ==> reordered[..][k] == reordered[k];
    forall k: nat | k < rows ensures HoldsPosition(remap[..], reordered[..], k) {
      assert Placed(reordered[..], remap[..], k, rows);
    }
    return Remap(remap[..]);
  }

  /** After n entries the row of entry k holds one of the first n positions that name it. */
  ghost predicate Placed(rows: seq<int>, remap: seq<int>, k: nat, n: nat)
    requires k < n <= |rows| == |remap|
  {
    var row := NamedRow(rows[k], |rows|);
    0 <= row < |remap| && 0 <= remap[row] < n && NamedRow(rows[remap[row]], |rows|) == row
  }

  /** The whole routine; `memory` is what `torch.empty` happened to hold. */
  method GenerateRowRemapArray(mSize: nat, nSize: nat, bm: nat, bn: nat, sList: seq<nat>, world: nat, memory: seq<int>)
    returns (r: Outcome)
    requires bm > 0 && bn > 0 && world > 0 && |memory| == Rows(mSize, nSize, bn)
    ensures bm * bn > 0 && (r == SizeMismatch <==> Sum(sList) != mSize * nSize / (bm * bn))
    ensures r != SizeMismatch ==>
      && ChunkStart(bm, sList, |sList|) <= |memory|
      && (r == IndexError <==> !IndicesFit(FinalRows(bm, sList, world, memory)))
      && (r.Remap? ==> IsScattered(r.remap, FinalRows(bm, sList, world, memory)))
      && (IsPermutation(FinalRows(bm, sList, world, memory)) ==>
            r.Remap? && IsInverse(r.remap, FinalRows(bm, sList, world, memory)))
  {
    MulPos(bm, bn);
    var totalTiles := TotalTiles(mSize, nSize, bm, bn);
    if Sum(sList) != totalTiles {
      return SizeMismatch;
    }
    ChunksCoverRows(mSize, nSize, bm, bn, sList);
    var rows := |memory|;
    var reordered := new int[rows](i requires 0 <= i < rows => memory[i]);
    var currentRow := 0;
    var k := 0;
    while k < |sList|
      invariant k <= |sList| && currentRow == ChunkStart(bm, sList, k) <= rows
      invariant reordered[..] == Reordered(bm, sList, world, k) + memory[currentRow..]
    {
      currentRow := WriteSegment(reordered, bm, sList, world, k, currentRow, memory);
      k := k + 1;
    }
    r := ScatterPositions(reordered);
    if IsPermutation(reordered[..]) {
      ScatteredIsInverse(r.remap, reordered[..]);
    }
  }

  /** One turn of the segment loop: the sorted rows of segment k, and the row at which the next one starts. */
  method WriteSegment(reordered: array<int>, bm: nat, sList: seq<nat>, world: nat, k: nat, currentRow: nat,
                      ghost memory: seq<int>)
    returns (nextRow: nat)
    requires world > 0 && k < |sList| && currentRow == ChunkStart(bm, sList, k)
    requires |memory| == reordered.Length && ChunkStart(bm, sList, |sList|) <= reordered.Length
    requires currentRow <= |memory| && reordered[..] == Reordered(bm, sList, world, k) + memory[currentRow..]
    modifies reordered
    ensures nextRow == ChunkStart(bm, sList, k + 1) <= |memory|
    ensures reordered[..] == Reordered(bm, sList, world, k + 1) + memory[nextRow..]
  {
    ChunkStartNext(bm, sList, k);
    ChunkStartMonotone(bm, sList, k + 1, |sList|);
    var chunkSize := sList[k] * bm;
    var chunk := Chunk(currentRow, chunkSize, world);
    WriteChunk(reordered, currentRow, chunk);
    nextRow := currentRow + chunkSize;
  }

  /** Slice assignment. */
  method WriteChunk(a: array<int>, at: nat, chunk: seq<int>)
    requires at + |chunk| <= a.Length
    modifies a
    ensures a[..] == old(a[..at]) + chunk + old(a[at + |chunk|..])
  {
    forall i | 0 <= i < |chunk| {
      a[at + i] := chunk[i];
    }
  }

  // ---------- segment sizes that count the tiles of the launch ----------

  lemma ProductMonotone(a: nat, b: nat, c: nat, d: nat)
    requires a <= b && c <= d
    ensures a * c <= b * d
    ensures a * c > 0 && a * c == b * d ==> a == b && c == d
  {
    MulLe(a, b, c);
    MulLe(c, d, b);
    if a * c > 0 && a < b {
      MulLe(a + 1, b, c);
    }
    if a * c > 0 && c < d {
      MulLe(c + 1, d, b);
    }
  }

  lemma Regroup(m: nat, n: nat, bm: nat, bn: nat)
    ensures (m * bm) * (n * bn) == (m * n) * (bm * bn) == (m * n * bm) * bn
  {
    var x := m * n;
    MulAssoc(x, bn, bm);
    MulAssoc(m * bm, bn, n);
    assert m * bm * n == m * n * bm;
  }

  /** Rounding both tile counts up agrees with the routine's own count exactly when the tiles fit the
      matrix; the tile height then divides the row count. */
  lemma TileCountsAgree(mSize: nat, nSize: nat, bm: nat, bn: nat, m: nat, n: nat)
    requires mSize > 0 && nSize > 0 && bm > 0 && bn > 0 && m == CeilDiv(mSize, bm) && n == CeilDiv(nSize, bn)
    ensures TotalTiles(mSize, nSize, bm, bn) == m * n <==> mSize % bm == 0 && nSize % bn == 0
    ensures TotalTiles(mSize, nSize, bm, bn) == m * n ==> Rows(mSize, nSize, bn) % bm == 0
  {
    CeilDivLeast(mSize, bm, m);
    CeilDivLeast(nSize, bn, n);
    Regroup(m, n, bm, bn);
    MulPos(mSize, nSize);
    MulPos(bm, bn);
    ProductMonotone(mSize, m * bm, nSize, n * bn);
    DivBounds(mSize * nSize, bm * bn);
    if TotalTiles(mSize, nSize, bm, bn) == m * n {
      DivModUnique(mSize, m, 0, bm);
      DivModUnique(nSize, n, 0, bn);
      DivModUnique(mSize * nSize, m * n * bm, 0, bn);
      DivModUnique(m * n * bm, m * n, 0, bm);
    }
    if mSize % bm == 0 && nSize % bn == 0 {
      ExactCeil(mSize, bm);
      ExactCeil(nSize, bn);
      DivModUnique(mSize * nSize, m * n, 0, bm * bn);
    }
  }

  lemma ExactCeil(x: nat, y: nat)
    requires y > 0 && x % y == 0
    ensures CeilDiv(x, y) * y == x
  {
    DivModUnique(x + y - 1, x / y, y - 1, y);
  }
}
