/** The kernel that moves the rows of a segment by the row map, thread by thread. */
module RowKernel {
  import opened Arith
  import opened Sequences

  /** One launch: the row map, the segment's first element and row, the number of its rows and their width. */
  datatype Grid = Grid(re: seq<int>, acc: nat, begin: nat, count: nat, width: nat)
  {
    function Total(): nat {
      MulNonneg(count, width);
      count * width
    }

    predicate Fits(length: nat) {
      width > 0 && begin + count <= |re| && acc + Total() <= length
    }
  }

  /** The element of the segment that thread idx writes; -1 if its row would leave the segment. */
  function Target(g: Grid, idx: nat): (t: int)
    requires g.width > 0 && g.begin + g.count <= |g.re| && idx < g.Total()
    ensures -1 <= t < g.Total()
  {
    DivLess(idx, g.count, g.width);
    var to := g.re[g.begin + idx / g.width] - g.begin;
    if 0 <= to < g.count then
      PairBound(to, idx % g.width, g.count, g.width);
      to * g.width + idx % g.width
    else -1
  }

  function Written(dst: seq<int>, src: seq<int>, g: Grid, idx: nat): (r: seq<int>)
    requires g.Fits(|dst|) && g.Fits(|src|) && idx < g.Total()
    ensures |r| == |dst|
  {
    var t := Target(g, idx);
    if t < 0 then dst else dst[g.acc + t := src[g.acc + idx]]
  }

  /** Thread idx of `scatter_row_remap_sm90_kernel`. */
  method ScatterThread(src: array<int>, dst: array<int>, g: Grid, idx: nat)
    requires g.Fits(src.Length) && g.Fits(dst.Length) && idx < g.Total() && src != dst
    modifies dst
    ensures dst[..] == Written(old(dst[..]), src[..], g, idx)
  {
    DivLess(idx, g.count, g.width);
    var srcRow := idx / g.width;
    var col := idx - srcRow * g.width;
    var dstRow := g.re[g.begin + srcRow] - g.begin;
    ghost var t := ThreadTarget(g, idx, srcRow, col, dstRow);
    if 0 <= dstRow < g.count {
      dst[g.acc + (dstRow * g.width + col)] := src[g.acc + (srcRow * g.width + col)];
    }
  }

  lemma ThreadTarget(g: Grid, idx: nat, srcRow: nat, col: int, dstRow: int) returns (t: int)
    requires g.width > 0 && g.begin + g.count <= |g.re| && idx < g.Total()
    requires srcRow == idx / g.width < g.count && col == idx - srcRow * g.width
    requires dstRow == g.re[g.begin + srcRow] - g.begin
    ensures t == Target(g, idx) < g.Total() && srcRow * g.width + col == idx
    ensures if 0 <= dstRow < g.count then 0 <= t == dstRow * g.width + col else t == -1
  {
    Remainder(idx, g.width, srcRow, col);
    t := Target(g, idx);
  }

  lemma Remainder(idx: nat, width: nat, q: nat, r: int)
    requires width > 0 && q == idx / width && r == idx - q * width
    ensures r == idx % width && q * width + r == idx
  {
  }

  /** Every thread of a grid once, in some order. */
  ghost predicate AllThreads(g: Grid, order: seq<nat>) {
    |order| == g.Total() && IsPermutation(order)
  }

  /** The threads of `order`, one after the other. */
  function Threads(dst: seq<int>, src: seq<int>, g: Grid, order: seq<nat>): (r: seq<int>)
    requires g.Fits(|dst|) && g.Fits(|src|) && Below(order, g.Total())
    ensures |r| == |dst|
  {
    if order == [] then dst
    else
      var last := |order| - 1;
      Written(Threads(dst, src, g, order[..last]), src, g, order[last])
  }

  method ScatterRowRemap(src: array<int>, dst: array<int>, g: Grid, order: seq<nat>)
    requires g.Fits(src.Length) && g.Fits(dst.Length) && Below(order, g.Total()) && src != dst
    modifies dst
    ensures dst[..] == Threads(old(dst[..]), src[..], g, order)
  {
    var i := 0;
    while i < |order|
      invariant i <= |order| && dst[..] == Threads(old(dst[..]), src[..], g, order[..i])
    {
      ScatterThread(src, dst, g, order[i]);
      assert order[..i + 1][..i] == order[..i];
      i := i + 1;
    }
    assert order[..i] == order;
  }

  /** The last thread that writes an element decides it. */
  lemma {:induction false} ThreadsWrite(dst: seq<int>, src: seq<int>, g: Grid, order: seq<nat>, i: nat)
    requires g.Fits(|dst|) && g.Fits(|src|) && Below(order, g.Total()) && i < |order| && Target(g, order[i]) >= 0
    requires forall j :: i < j < |order| ==> Target(g, order[j]) != Target(g, order[i])
    ensures Threads(dst, src, g, order)[g.acc + Target(g, order[i])] == src[g.acc + order[i]]
  {
    var last := |order| - 1;
    if i < last {
      assert forall j :: 0 <= j < last ==> order[..last][j] == order[j];
      ThreadsWrite(dst, src, g, order[..last], i);
      assert Target(g, order[last]) != Target(g, order[i]);
    }
  }

  /** Two threads write the same element only if the map sends their rows to the same row. */
  lemma TargetsApart(g: Grid, i: nat, j: nat)
    requires g.width > 0 && g.begin + g.count <= |g.re| && i < g.Total() && j < g.Total() && IsPermutation(g.re)
    requires Target(g, i) == Target(g, j) >= 0
    ensures i == j
  {
    DivLess(i, g.count, g.width);
    DivLess(j, g.count, g.width);
    var a, b := i / g.width, j / g.width;
    PairUnique(g.re[g.begin + a] - g.begin, i % g.width, g.re[g.begin + b] - g.begin, j % g.width, g.width);
    assert a == b;
    assert i == a * g.width + i % g.width && j == b * g.width + j % g.width;
  }

  /** The thread of row x and column col writes the row that the map gives it. */
  lemma TargetOf(g: Grid, x: nat, col: nat, to: nat, idx: nat)
    requires g.width > 0 && g.begin + g.count <= |g.re| && x < g.count && col < g.width
    requires g.re[g.begin + x] == g.begin + to && to < g.count && idx == x * g.width + col
    ensures idx < g.Total() && 0 <= Target(g, idx) == to * g.width + col
  {
    PairBound(x, col, g.count, g.width);
    DivModUnique(idx, x, col, g.width);
  }

  ghost predicate Moved(dst: seq<int>, src: seq<int>, place: int, from: int) {
    0 <= place < |dst| && 0 <= from < |src| && dst[place] == src[from]
  }

  lemma OnlyWriter(g: Grid, order: seq<nat>, i: nat)
    requires g.width > 0 && g.begin + g.count <= |g.re| && AllThreads(g, order) && IsPermutation(g.re)
    requires i < |order| && Target(g, order[i]) >= 0
    ensures forall j :: i < j < |order| ==> Target(g, order[j]) != Target(g, order[i])
  {
    forall j | i < j < |order| ensures Target(g, order[j]) != Target(g, order[i]) {
      if Target(g, order[j]) == Target(g, order[i]) {
        TargetsApart(g, order[j], order[i]);
      }
    }
  }

  /** The thread of an element decides what its target holds. */
  lemma ElementMoves(dst: seq<int>, src: seq<int>, g: Grid, order: seq<nat>, idx: nat, t: int)
    requires g.Fits(|dst|) && g.Fits(|src|) && AllThreads(g, order) && IsPermutation(g.re)
    requires idx < g.Total() && t >= 0 && Target(g, idx) == t
    ensures Moved(Threads(dst, src, g, order), src, g.acc + t, g.acc + idx)
  {
    var i := PermutationReaches(order, idx);
    OnlyWriter(g, order, i);
    ThreadsWrite(dst, src, g, order, i);
  }
}
