/**
 Equal slices of the sorted rows, in rows and in elements: which row of the output an element of a
 rank's slice belongs to, and when the slices are the ranks' rows.
 */
module SliceShares {
  import opened Arith
  import opened RowRemap
  import opened RowKernel

  // ---------- slices of a segment ----------

  /** The first element of segment i. */
  function ElementStart(bm: nat, cSeg: seq<nat>, width: nat, i: nat): nat
    requires i <= |cSeg|
  {
    MulNonneg(ChunkStart(bm, cSeg, i), width);
    ChunkStart(bm, cSeg, i) * width
  }

  /** The launch for segment i. */
  function SegmentGrid(re: seq<int>, bm: nat, cSeg: seq<nat>, width: nat, i: nat): Grid
    requires i < |cSeg|
  {
    MulNonneg(cSeg[i], bm);
    Grid(re, ElementStart(bm, cSeg, width, i), ChunkStart(bm, cSeg, i), cSeg[i] * bm, width)
  }

  /** Element e of rank k's result is element `Source` of the ranks' outputs: row e / width of rank k
      is row k, k + world, k + 2 * world, ... of the output. */
  function Source(e: nat, k: nat, world: nat, width: nat): nat
    requires width > 0
  {
    MulNonneg(e / width, world);
    MulNonneg(e / width * world + k, width);
    (e / width * world + k) * width + e % width
  }

  lemma SourceOfRow(row: nat, col: nat, k: nat, world: nat, width: nat)
    requires col < width
    ensures 0 <= row * width + col && Source(row * width + col, k, world, width) == (row * world + k) * width + col
  {
    MulNonneg(row, width);
    DivModUnique(row * width + col, row, col, width);
  }

  /** What one rank has of so many elements: the quotient that the code takes. */
  function Share(elements: nat, world: nat): nat
    requires world > 0
  {
    elements / world
  }

  /** Element f of slice k of a segment with m rows per rank: its place and its row, from element
      numbers alone.  The segment starts at row base * world. */
  lemma SliceElement(base: nat, m: nat, world: nat, width: nat, k: nat, f: nat) returns (j: nat, col: nat)
    requires width > 0 && k < world && f < m * width
    ensures j < m && col < width
    ensures k * (m * width) + f == (k * m + j) * width + col
    ensures 0 <= base * width && Source(base * width + f, k, world, width) == ((base + j) * world + k) * width + col
  {
    DivLess(f, m, width);
    j, col := f / width, f % width;
    assert f == j * width + col;
    SliceDigits(k, m, width, j, col);
    MulNonneg(base, width);
    assert base * width + f == (base + j) * width + col;
    SourceOfRow(base + j, col, k, world, width);
  }

  lemma SliceDigits(k: nat, m: nat, width: nat, j: nat, col: nat)
    ensures k * (m * width) + (j * width + col) == (k * m + j) * width + col
  {
  }

  /** The j-th row of rank k in a segment that starts at row start = base * world. */
  lemma AlignedRow(start: nat, base: nat, world: nat, k: nat, j: nat)
    requires k < world && start == base * world
    ensures FirstRow(start, k, world) == start + k
    ensures (base + j) * world + k == start + (j * world + k)
  {
    var q: int := base;
    DivModUnique(k - q * world, -q, k, world);
  }

  /** Place p of a segment holds, in the sorted order, row x of the segment. */
  ghost predicate Sorted(rows: seq<int>, start: nat, p: int, x: int) {
    0 <= start + p < |rows| && rows[start + p] == start + x
  }

  lemma SortedRow(bm: nat, cSeg: seq<nat>, rows: seq<int>, i: nat, world: nat, start: nat, base: nat, m: nat, k: nat,
                  j: nat)
    requires i < |cSeg| && k < world && j < m && start == ChunkStart(bm, cSeg, i) == base * world
    requires cSeg[i] * bm == m * world && HasRows(rows, bm, cSeg, world)
    ensures Sorted(rows, start, k * m + j, j * world + k)
  {
    RankSlice(bm, cSeg, world, i, m, start, k, j);
    AlignedRow(start, base, world, k, j);
  }

  /** The rows begin with the reordered rows of all segments. */
  ghost predicate HasRows(rows: seq<int>, bm: nat, cSeg: seq<nat>, world: nat)
    requires world > 0
  {
    var reordered := Reordered(bm, cSeg, world, |cSeg|);
    |reordered| <= |rows| && forall p :: 0 <= p < |reordered| ==> rows[p] == reordered[p]
  }

  /** The numbers of an element of a slice: place p, row x and column col in the segment. */
  lemma SliceNumbers(start: nat, base: nat, m: nat, world: nat, width: nat, k: nat, f: nat)
    returns (j: nat, p: nat, x: nat, col: nat)
    requires width > 0 && k < world && f < m * width && start == base * world
    ensures j < m && col < width && p == k * m + j && x == j * world + k && p < m * world && x < m * world
    ensures k * (m * width) + f == p * width + col && 0 <= base * width
    ensures Source(base * width + f, k, world, width) == start * width + (x * width + col)
  {
    j, col := SliceElement(base, m, world, width, k, f);
    PairBound(k, j, world, m);
    PairBound(j, k, m, world);
    AlignedRow(start, base, world, k, j);
    p, x := k * m + j, j * world + k;
    assert (start + x) * width == start * width + x * width;
  }

  /** The rows of segment i. */
  function SegmentRows(bm: nat, cSeg: seq<nat>, i: nat): nat
    requires i < |cSeg|
  {
    MulNonneg(cSeg[i], bm);
    cSeg[i] * bm
  }

  /** Every segment gives every rank the same number of rows. */
  ghost predicate EqualSlices(bm: nat, cSeg: seq<nat>, world: nat)
    requires world > 0
  {
    forall i: nat :: i < |cSeg| ==> SegmentRows(bm, cSeg, i) % world == 0
  }

  lemma {:induction false} StartsAligned(bm: nat, cSeg: seq<nat>, world: nat, i: nat)
    requires world > 0 && EqualSlices(bm, cSeg, world) && i <= |cSeg|
    ensures ChunkStart(bm, cSeg, i) % world == 0
  {
    if i > 0 {
      StartsAligned(bm, cSeg, world, i - 1);
      ChunkStartNext(bm, cSeg, i - 1);
      MultiplesAdd(ChunkStart(bm, cSeg, i - 1), SegmentRows(bm, cSeg, i - 1), world);
    } else {
      assert cSeg[..0] == [];
    }
  }

  lemma MultiplesAdd(a: int, b: int, k: nat)
    requires k > 0 && a % k == 0 && b % k == 0
    ensures (a + b) % k == 0
  {
    DivModUnique(a + b, a / k + b / k, 0, k);
  }

  /** Element numbers of a segment of m rows per rank. */
  lemma SegmentElements(start: nat, base: nat, m: nat, world: nat, width: nat, acc: nat, comm: nat)
    requires world > 0 && start == base * world && acc == start * width && comm == m * world * width
    ensures acc / world == base * width && comm / world == m * width
    ensures (acc + comm) / world == base * width + m * width
  {
    MulSwap(base, world, width);
    MulSwap(m, world, width);
    DivModUnique(acc, base * width, 0, world);
    DivModUnique(comm, m * width, 0, world);
    assert (base * width + m * width) * world == base * width * world + m * width * world;
    DivModUnique(acc + comm, base * width + m * width, 0, world);
  }

  lemma MulSwap(a: int, b: int, c: int)
    ensures a * b * c == a * c * b
  {
  }

  /** What a launch is given: equal slices, and the inverse of rows that begin with the reordered ones. */
  ghost predicate GoodMap(re: seq<int>, rows: seq<int>, bm: nat, cSeg: seq<nat>, world: nat)
    requires world > 0
  {
    EqualSlices(bm, cSeg, world) && IsInverse(re, rows) && HasRows(rows, bm, cSeg, world)
  }

  // ---------- when equal slices are the ranks' rows ----------

  /** Row x of the segment of n rows from start on is one of rank k's. */
  predicate OwnRow(start: nat, n: nat, world: nat, k: nat, x: int)
    requires world > 0
  {
    start <= x < start + n && x % world == k
  }

  /** Rank k has m rows in the segment, the j-th one world rows after the one before. */
  ghost predicate AllRows(start: nat, n: nat, world: nat, k: nat, m: nat)
    requires k < world
  {
    forall x: int :: OwnRow(start, n, world, k, x) <==> exists j: nat :: j < m && IsRow(start, world, k, j, x)
  }

  /** They are in order at the places from k * m on. */
  ghost predicate RowsInOrder(sorted: seq<int>, start: nat, world: nat, k: nat, m: nat)
    requires k < world
  {
    forall j: nat :: j < m ==> RowInPlace(sorted, start, world, k, m, j)
  }

  ghost predicate RowInPlace(sorted: seq<int>, start: nat, world: nat, k: nat, m: nat, j: nat)
    requires k < world
  {
    var place := start + (k * m + j);
    0 <= place < |sorted| && IsRow(start, world, k, j, sorted[place])
  }

  ghost predicate HoldsRows(sorted: seq<int>, start: nat, n: nat, world: nat, width: nat, k: nat, m: nat)
    requires k < world
  {
    AllRows(start, n, world, k, m) && RowsInOrder(sorted, start, world, k, m) && n * width / world == m * width
  }

  /** A slice of the element count that the collective sends consists of exactly rank k's rows. */
  ghost predicate OwnSlice(sorted: seq<int>, start: nat, n: nat, world: nat, width: nat, k: nat)
    requires k < world
  {
    exists m: nat :: HoldsRows(sorted, start, n, world, width, k, m)
  }

  ghost predicate SliceIsRanks(bm: nat, cSeg: seq<nat>, world: nat, width: nat, i: nat, k: nat)
    requires k < world && i < |cSeg|
  {
    OwnSlice(Reordered(bm, cSeg, world, |cSeg|), ChunkStart(bm, cSeg, i), SegmentRows(bm, cSeg, i), world, width, k)
  }

  lemma EqualSlicesHold(bm: nat, cSeg: seq<nat>, world: nat, width: nat, i: nat, k: nat)
    requires k < world && i < |cSeg| && SegmentRows(bm, cSeg, i) % world == 0
    ensures SliceIsRanks(bm, cSeg, world, width, i, k)
  {
    var start, n := ChunkStart(bm, cSeg, i), SegmentRows(bm, cSeg, i);
    var sorted := Reordered(bm, cSeg, world, |cSeg|);
    var m := WholeShare(n, world, width);
    SliceInOrder(bm, cSeg, world, i, m, start, k, sorted);
    OwnRows(start, m, world, n, k);
    assert HoldsRows(sorted, start, n, world, width, k, m);
  }

  lemma WholeShare(n: nat, world: nat, width: nat) returns (m: nat)
    requires world > 0 && n % world == 0
    ensures n == m * world && n * width / world == m * width
  {
    m := n / world;
    MulSwap(m, world, width);
    DivModUnique(n * width, m * width, 0, world);
  }

  lemma OwnRows(start: nat, m: nat, world: nat, n: nat, k: nat)
    requires k < world && n == m * world
    ensures AllRows(start, n, world, k, m)
  {
    forall x: int
      ensures OwnRow(start, n, world, k, x) <==> exists j: nat :: j < m && IsRow(start, world, k, j, x)
    {
      RowsOfRank(start, m, world, k, x);
    }
  }

  lemma SliceInOrder(bm: nat, cSeg: seq<nat>, world: nat, i: nat, m: nat, start: nat, k: nat, sorted: seq<int>)
    requires i < |cSeg| && k < world && SegmentRows(bm, cSeg, i) == m * world && start == ChunkStart(bm, cSeg, i)
    requires sorted == Reordered(bm, cSeg, world, |cSeg|)
    ensures RowsInOrder(sorted, start, world, k, m)
  {
    forall j: nat | j < m ensures RowInPlace(sorted, start, world, k, m, j) {
      RankSlice(bm, cSeg, world, i, m, start, k, j);
    }
  }

  /** The last of a rank's m rows lies in the segment. */
  lemma LastOwnRow(start: nat, n: nat, world: nat, k: nat, m: nat)
    requires k < world && m > 0 && AllRows(start, n, world, k, m)
    ensures FirstRow(start, k, world) + (m - 1) * world < start + n
  {
    var last := m - 1;
    var x := FirstRow(start, k, world) + last * world;
    assert IsRow(start, world, k, last, x);
    assert OwnRow(start, n, world, k, x);
  }

  /** The segment's last row is one of its rank's m rows. */
  lemma LastRowOwned(start: nat, n: nat, world: nat, k: nat, m: nat)
    requires k < world && n > 0 && AllRows(start, n, world, k, m) && OwnRow(start, n, world, k, start + n - 1)
    ensures m > 0 && start + n - 1 <= FirstRow(start, k, world) + (m - 1) * world
  {
    var j: nat :| j < m && IsRow(start, world, k, j, start + n - 1);
    MulLe(j, m - 1, world);
  }

  /** The rank whose first row comes last. */
  lemma LastResidue(start: nat, world: nat) returns (b: nat)
    requires world > 0
    ensures b < world && FirstRow(start, b, world) == start + world - 1
  {
    b := (start + world - 1) % world;
    var q := (start + world - 1) / world;
    DivModUnique(b - start, -q, world - 1, world);
  }

  lemma SpanIsMultiple(n: nat, m: nat, world: nat, start: nat, first: int)
    requires world > 0 && m > 0 && first < start + world
    requires start + n - 1 <= first + (m - 1) * world && start + world - 1 + (m - 1) * world < start + n
    ensures n % world == 0
  {
    assert (m - 1) * world == m * world - world;
    DivModUnique(n, m, 0, world);
  }

  lemma SameHeight(m: nat, m': nat, width: nat)
    requires width > 0 && m * width == m' * width
    ensures m == m'
  {
    PairUnique(m, 0, m', 0, width);
  }

  /** If every rank's slice is its rows, all ranks have as many, and together they fill the segment. */
  lemma OnlyEqualSlicesHold(sorted: seq<int>, start: nat, n: nat, world: nat, width: nat)
    requires world > 0 && width > 0
    requires forall k: nat :: k < world ==> OwnSlice(sorted, start, n, world, width, k)
    ensures n % world == 0
  {
    if n > 0 {
      var a := (start + n - 1) % world;
      assert OwnSlice(sorted, start, n, world, width, a);
      var m: nat :| HoldsRows(sorted, start, n, world, width, a, m);
      LastRowOwned(start, n, world, a, m);
      var b := LastResidue(start, world);
      assert OwnSlice(sorted, start, n, world, width, b);
      var m': nat :| HoldsRows(sorted, start, n, world, width, b, m');
      SameHeight(m, m', width);
      LastOwnRow(start, n, world, b, m);
      SpanIsMultiple(n, m, world, start, FirstRow(start, a, world));
    }
  }

  /** Slices of equal element counts are the ranks' rows if and only if the world size divides the segment's rows. */
  lemma SlicesAreRanksRows(bm: nat, cSeg: seq<nat>, world: nat, width: nat, i: nat)
    requires world > 0 && width > 0 && i < |cSeg|
    ensures SegmentRows(bm, cSeg, i) % world == 0 <==>
            forall k: nat :: k < world ==> SliceIsRanks(bm, cSeg, world, width, i, k)
  {
    var sorted := Reordered(bm, cSeg, world, |cSeg|);
    var start, n := ChunkStart(bm, cSeg, i), SegmentRows(bm, cSeg, i);
    if n % world == 0 {
      forall k: nat | k < world ensures SliceIsRanks(bm, cSeg, world, width, i, k) {
        EqualSlicesHold(bm, cSeg, world, width, i, k);
      }
    }
    if forall k: nat :: k < world ==> SliceIsRanks(bm, cSeg, world, width, i, k) {
      forall k: nat | k < world ensures OwnSlice(sorted, start, n, world, width, k) {
        assert SliceIsRanks(bm, cSeg, world, width, i, k);
      }
      OnlyEqualSlicesHold(sorted, start, n, world, width);
    }
  }

  /** So a generated row map serves the launch whenever the world size divides the tile height. */
  lemma GeneratedMapIsGood(bm: nat, cSeg: seq<nat>, world: nat, memory: seq<int>, remap: seq<int>)
    requires world > 0 && bm % world == 0 && ChunkStart(bm, cSeg, |cSeg|) <= |memory|
    requires IsInverse(remap, FinalRows(bm, cSeg, world, memory))
    ensures GoodMap(remap, FinalRows(bm, cSeg, world, memory), bm, cSeg, world)
  {
    forall i: nat | i < |cSeg| ensures SegmentRows(bm, cSeg, i) % world == 0 {
      MultipleOfMultiple(cSeg[i], bm, world);
    }
  }

  lemma MultipleOfMultiple(a: nat, b: nat, k: nat)
    requires k > 0 && b % k == 0
    ensures (a * b) % k == 0
  {
    var q := b / k;
    assert a * (q * k) == (a * q) * k;
    DivModUnique(a * b, a * q, 0, k);
  }
}
