/** The permutation and segment sizes that tool/gen_config_sm90.py writes for a configuration run. */
module GenConfig {
  import opened Arith
  import opened Sequences
  import opened Wrappers

  /** Logical tile (tr, tc) of a row-major grid goes to packed position tc * rows + tr. */
  ghost predicate ColumnMajor(ra: seq<int>, rows: nat, cols: nat) {
    |ra| == rows * cols && forall tr: nat, tc: nat :: tr < rows && tc < cols ==> PlacedAt(ra, rows, cols, tr, tc)
  }

  ghost predicate PlacedAt(ra: seq<int>, rows: nat, cols: nat, tr: nat, tc: nat) {
    0 <= tr * cols + tc < |ra| && ra[tr * cols + tc] == tc * rows + tr
  }

  /** `make_ra`: an unknown order is an error. */
  method MakeRa(rows: nat, cols: nat, reorder: string) returns (ra: Option<seq<int>>)
    ensures ra.None? <==> reorder != "identity" && reorder != "column_major"
    ensures reorder == "identity" ==> |ra.value| == rows * cols && forall k :: 0 <= k < |ra.value| ==> ra.value[k] == k
    ensures reorder == "column_major" ==> ColumnMajor(ra.value, rows, cols)
    ensures ra.Some? ==> IsPermutation(ra.value)
  {
    MulNonneg(rows, cols);
    var n := rows * cols;
    if reorder == "identity" {
      return Some(seq(n, k => k));
    }
    if reorder != "column_major" {
      return None;
    }
    var h: array<int> := new int[n](k => 0);
    var p := 0;
    var tc: nat := 0;
    while tc < cols
      invariant tc <= cols && p == tc * rows
      invariant forall a: nat, b: nat :: a < rows && b < tc ==> PlacedAt(h[..], rows, cols, a, b)
    {
      p := FillColumn(h, rows, cols, tc, p);
      MulSucc(tc, rows);
      tc := tc + 1;
    }
    ColumnMajorIsPermutation(h[..], rows, cols);
    return Some(h[..]);
  }

  /** The inner loop: one column of tiles gets the next `rows` positions. */
  method FillColumn(h: array<int>, rows: nat, cols: nat, tc: nat, start: nat) returns (p: nat)
    requires h.Length == rows * cols && tc < cols && start == tc * rows
    requires forall a: nat, b: nat :: a < rows && b < tc ==> PlacedAt(h[..], rows, cols, a, b)
    modifies h
    ensures p == start + rows
    ensures forall a: nat, b: nat :: a < rows && b <= tc ==> PlacedAt(h[..], rows, cols, a, b)
  {
    p := start;
    var tr: nat := 0;
    while tr < rows
      invariant tr <= rows && p == start + tr
      invariant forall a: nat, b: nat :: a < rows && b < tc ==> PlacedAt(h[..], rows, cols, a, b)
      invariant forall a: nat :: a < tr ==> PlacedAt(h[..], rows, cols, a, tc)
    {
      PairBound(tr, tc, rows, cols);
      ghost var before := h[..];
      var at := tr * cols + tc;
      h[at] := p;
      assert h[..] == before[at := p];
      forall a: nat, b: nat | a < rows && b <= tc && (b < tc || a <= tr) ensures PlacedAt(h[..], rows, cols, a, b) {
        CellUntouched(before, rows, cols, tr, tc, p, a, b);
      }
      p := p + 1;
      tr := tr + 1;
    }
  }

  /** Writing one cell places that cell and leaves the others. */
  lemma CellUntouched(h: seq<int>, rows: nat, cols: nat, tr: nat, tc: nat, p: int, a: nat, b: nat)
    requires tr < rows && tc < cols && a < rows && b < cols && |h| == rows * cols
    requires p == tc * rows + tr
    requires (a, b) != (tr, tc) ==> PlacedAt(h, rows, cols, a, b)
    ensures 0 <= tr * cols + tc < |h| && PlacedAt(h[tr * cols + tc := p], rows, cols, a, b)
  {
    PairBound(tr, tc, rows, cols);
    PairBound(a, b, rows, cols);
    if a * cols + b == tr * cols + tc {
      PairUnique(a, b, tr, tc, cols);
    }
  }

  lemma ColumnMajorEntry(ra: seq<int>, rows: nat, cols: nat, k: nat) returns (tr: nat, tc: nat)
    requires ColumnMajor(ra, rows, cols) && k < |ra|
    ensures tr < rows && tc < cols && k == tr * cols + tc
    ensures ra[k] == tc * rows + tr && 0 <= ra[k] < |ra|
  {
    if cols == 0 {
      assert false;
    }
    tr, tc := k / cols, k % cols;
    DivLess(k, rows, cols);
    DivBounds(k, cols);
    assert PlacedAt(ra, rows, cols, tr, tc);
    PairBound(tc, tr, cols, rows);
  }

  lemma ColumnMajorDistinct(ra: seq<int>, rows: nat, cols: nat, i: nat, j: nat)
    requires ColumnMajor(ra, rows, cols) && i < j < |ra|
    ensures ra[i] != ra[j]
  {
    var tr, tc := ColumnMajorEntry(ra, rows, cols, i);
    var tr', tc' := ColumnMajorEntry(ra, rows, cols, j);
    if ra[i] == ra[j] {
      PairUnique(tc, tr, tc', tr', rows);
    }
  }

  lemma ColumnMajorIsPermutation(ra: seq<int>, rows: nat, cols: nat)
    requires ColumnMajor(ra, rows, cols)
    ensures IsPermutation(ra)
  {
    forall k | 0 <= k < |ra| ensures 0 <= ra[k] < |ra| {
      var tr, tc := ColumnMajorEntry(ra, rows, cols, k);
    }
    forall i, j | 0 <= i < j < |ra| ensures ra[i] != ra[j] {
      ColumnMajorDistinct(ra, rows, cols, i, j);
    }
  }

  /** Whole groups followed by one last group of 1 to group tiles. */
  ghost predicate IsGrouping(segs: seq<nat>, n: nat, group: nat) {
    && Sum(segs) == n
    && (forall s :: 0 <= s < |segs| ==> 0 < segs[s] <= group)
    && (forall s :: 0 <= s < |segs| - 1 ==> segs[s] == group)
  }

  /** `make_segments`: a group size that is not positive means one segment. */
  method MakeSegments(numTiles: nat, group: int) returns (vals: seq<nat>)
    ensures group <= 0 ==> vals == [numTiles]
    ensures group > 0 ==> IsGrouping(vals, numTiles, group)
    ensures Sum(vals) == numTiles
  {
    if group <= 0 {
      vals := [numTiles];
      assert Sum(vals) == numTiles + Sum([]);
      return;
    }
    vals := [];
    var left: nat := numTiles;
    while left > 0
      invariant Sum(vals) + left == numTiles
      invariant forall s :: 0 <= s < |vals| ==> 0 < vals[s] <= group
      invariant forall s :: 0 <= s < |vals| - 1 ==> vals[s] == group
      invariant vals != [] && left > 0 ==> vals[|vals| - 1] == group
    {
      var x: nat := Min(group, left);
      SumAppend(vals, [x]);
      assert Sum([x]) == x + Sum([]);
      vals := vals + [x];
      left := left - x;
    }
  }

  /** The grouping is the only one: segment s starts at s * group, and their number is the rounded-up quotient. */
  lemma {:induction false} GroupingStarts(segs: seq<nat>, n: nat, group: nat, s: nat)
    requires group > 0 && IsGrouping(segs, n, group) && s < |segs|
    ensures Sum(segs[..s]) == s * group
  {
    if s > 0 {
      GroupingStarts(segs, n, group, s - 1);
      SumSnoc(segs, s - 1);
    }
  }

  lemma GroupingCount(segs: seq<nat>, n: nat, group: nat)
    requires group > 0 && IsGrouping(segs, n, group)
    ensures |segs| == CeilDiv(n, group)
  {
    if segs != [] {
      var last := |segs| - 1;
      GroupingStarts(segs, n, group, last);
      SumSnoc(segs, last);
      assert segs[..last + 1] == segs;
      CountIs(n, group, last, segs[last]);
    }
  }

  lemma CountIs(n: nat, group: nat, last: nat, rest: nat)
    requires 0 < rest <= group && n == last * group + rest
    ensures CeilDiv(n, group) == last + 1
  {
    DivModUnique(n + group - 1, last + 1, rest - 1, group);
  }
}
