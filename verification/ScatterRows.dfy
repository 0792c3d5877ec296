/**
 The collectives of `gemm_scatter`: segment by segment the rows are moved by the row map, and every
 rank receives the sum of its equal slice.  Whole launches hand rank k the rows congruent to k.
 */
module ScatterRows {
  import opened Arith
  import opened Sequences
  import opened RowRemap
  import opened RowKernel
  import opened SliceShares
  import SearchHint
  import SlotPool

  // ---------- the sums of a segment ----------

  /** The first `limit` elements of rank k's result are sums of the rows that are congruent to k. */
  ghost predicate Delivered(cs: seq<seq<int>>, dk: seq<int>, k: nat, width: nat, limit: nat)
    requires width > 0
  {
    forall e: nat :: e < limit ==> DeliveredAt(cs, dk, k, width, e)
  }

  ghost predicate DeliveredAt(cs: seq<seq<int>>, dk: seq<int>, k: nat, width: nat, e: nat)
    requires width > 0
  {
    e < |dk| && InAll(cs, Source(e, k, |cs|, width)) && dk[e] == SlotPool.ColumnSum(cs, Source(e, k, |cs|, width))
  }

  ghost predicate InAll(cs: seq<seq<int>>, i: nat) {
    forall q :: 0 <= q < |cs| ==> i < |cs[q]|
  }

  /** After the kernel, place p of the segment holds the row that was sorted there. */
  lemma SortedMoves(dst: seq<int>, src: seq<int>, g: Grid, order: seq<nat>, rows: seq<int>, p: nat, x: nat, col: nat,
                    place: nat, from: nat)
    requires g.Fits(|dst|) && g.Fits(|src|) && AllThreads(g, order) && IsInverse(g.re, rows)
    requires p < g.count && x < g.count && Sorted(rows, g.begin, p, x) && col < g.width
    requires place == p * g.width + col && from == x * g.width + col
    ensures Moved(Threads(dst, src, g, order), src, g.acc + place, g.acc + from)
  {
    TargetOf(g, x, col, p, from);
    SearchHint.InversePermutations(g.re, rows);
    ElementMoves(dst, src, g, order, from, place);
  }

  /** What the kernels of all ranks leave in the ranks' temporary tensors. */
  ghost predicate AllRan(before: seq<seq<int>>, cs: seq<seq<int>>, g: Grid, orders: seq<seq<nat>>, after: seq<seq<int>>) {
    && |before| == |cs| == |orders| == |after|
    && forall q :: 0 <= q < |cs| ==> Ran(before[q], cs[q], g, orders[q], after[q])
  }

  ghost predicate Ran(before: seq<int>, c: seq<int>, g: Grid, order: seq<nat>, after: seq<int>) {
    g.Fits(|before|) && g.Fits(|c|) && AllThreads(g, order) && after == Threads(before, c, g, order)
  }

  lemma SumMoved(tmps: seq<seq<int>>, cs: seq<seq<int>>, place: int, from: int)
    requires |tmps| == |cs| > 0 && forall q :: 0 <= q < |cs| ==> Moved(tmps[q], cs[q], place, from)
    ensures place >= 0 && from >= 0 && InAll(tmps, place) && InAll(cs, from)
    ensures SlotPool.ColumnSum(tmps, place) == SlotPool.ColumnSum(cs, from)
  {
    assert Moved(tmps[0], cs[0], place, from);
    assert seq(|tmps|, q requires 0 <= q < |tmps| => tmps[q][place]) == seq(|cs|, q requires 0 <= q < |cs| => cs[q][from]);
  }

  /** A place of the segment adds up the ranks' elements of the row that was sorted there. */
  lemma SortedSum(before: seq<seq<int>>, cs: seq<seq<int>>, g: Grid, orders: seq<seq<nat>>, tmps: seq<seq<int>>,
                  rows: seq<int>, p: nat, x: nat, col: nat, place: nat, from: nat)
    requires AllRan(before, cs, g, orders, tmps) && cs != [] && IsInverse(g.re, rows)
    requires p < g.count && x < g.count && Sorted(rows, g.begin, p, x) && col < g.width
    requires place - g.acc == p * g.width + col && from - g.acc == x * g.width + col
    ensures InAll(tmps, place) && InAll(cs, from)
    ensures SlotPool.ColumnSum(tmps, place) == SlotPool.ColumnSum(cs, from)
  {
    forall q | 0 <= q < |cs| ensures Moved(tmps[q], cs[q], place, from) {
      assert Ran(before[q], cs[q], g, orders[q], tmps[q]);
      SortedMoves(before[q], cs[q], g, orders[q], rows, p, x, col, place - g.acc, from - g.acc);
    }
    SumMoved(tmps, cs, place, from);
  }

  /** Element f of rank k's share of a segment adds up the elements of a row of rank k. */
  lemma ShareHolds(before: seq<seq<int>>, cs: seq<seq<int>>, bm: nat, cSeg: seq<nat>, g: Grid, orders: seq<seq<nat>>,
                   tmps: seq<seq<int>>, rows: seq<int>, i: nat, base: nat, m: nat, k: nat, f: nat, place: nat, e: nat)
    requires AllRan(before, cs, g, orders, tmps) && i < |cSeg| && k < |cs|
    requires g.begin == ChunkStart(bm, cSeg, i) == base * |cs| && g.count == cSeg[i] * bm == m * |cs|
    requires g.acc == g.begin * g.width && IsInverse(g.re, rows) && HasRows(rows, bm, cSeg, |cs|)
    requires g.width > 0 && f < m * g.width && place == g.acc + (k * (m * g.width) + f) && e == base * g.width + f
    ensures InAll(tmps, place) && InAll(cs, Source(e, k, |cs|, g.width))
    ensures SlotPool.ColumnSum(tmps, place) == SlotPool.ColumnSum(cs, Source(e, k, |cs|, g.width))
  {
    var j, p, x, col := SliceNumbers(g.begin, base, m, |cs|, g.width, k, f);
    SortedRow(bm, cSeg, rows, i, |cs|, g.begin, base, m, k, j);
    SortedSum(before, cs, g, orders, tmps, rows, p, x, col, place, Source(e, k, |cs|, g.width));
  }

  // ---------- one rank after the other ----------

  /** The ranks' outputs, temporary tensors and results: as large as the code makes them, and apart. */
  ghost predicate Buffers(c: seq<array<int>>, tmp: seq<array<int>>, d: seq<array<int>>, size: nat) {
    && |c| == |tmp| == |d| > 0
    && (forall q :: 0 <= q < |c| ==> c[q].Length == size && tmp[q].Length == size && d[q].Length == size / |c|)
    && (forall p, q :: 0 <= p < |c| && 0 <= q < |c| ==> c[p] != tmp[q] && c[p] != d[q] && tmp[p] != d[q])
    && Injective(tmp) && Injective(d)
  }

  ghost function Values(a: seq<array<int>>): (r: seq<seq<int>>)
    reads a
    ensures |r| == |a| && forall q :: 0 <= q < |a| ==> r[q] == a[q][..]
  {
    seq(|a|, q requires 0 <= q < |a| reads a => a[q][..])
  }

  method Snapshot(a: seq<array<int>>) returns (r: seq<seq<int>>)
    ensures r == Values(a)
  {
    r := [];
    while |r| < |a|
      invariant |r| <= |a| && forall q :: 0 <= q < |r| ==> r[q] == a[q][..]
    {
      r := r + [a[|r|][..]];
    }
  }

  /** The row kernel on every rank. */
  method RemapAll(c: seq<array<int>>, tmp: seq<array<int>>, ghost d: seq<array<int>>, ghost size: nat, g: Grid,
                  orders: seq<seq<nat>>)
    requires Buffers(c, tmp, d, size) && g.Fits(size) && |orders| == |c|
    requires forall q :: 0 <= q < |orders| ==> AllThreads(g, orders[q])
    modifies tmp
    ensures Values(c) == old(Values(c))
    ensures AllRan(old(Values(tmp)), Values(c), g, orders, Values(tmp))
  {
    var q := 0;
    while q < |c|
      invariant q <= |c|
      invariant forall p :: 0 <= p < |c| ==> c[p][..] == old(c[p][..])
      invariant forall p :: q <= p < |c| ==> tmp[p][..] == old(tmp[p][..])
      invariant forall p :: 0 <= p < q ==> Ran(old(tmp[p][..]), old(c[p][..]), g, orders[p], tmp[p][..])
    {
      ScatterRowRemap(c[q], tmp[q], g, orders[q]);
      q := q + 1;
    }
  }

  /** The tensors that the collective finds. */
  method RemapSegment(c: seq<array<int>>, tmp: seq<array<int>>, ghost d: seq<array<int>>, ghost size: nat, g: Grid,
                      orders: seq<seq<nat>>)
    returns (tmps: seq<seq<int>>)
    requires Buffers(c, tmp, d, size) && g.Fits(size) && |orders| == |c|
    requires forall q :: 0 <= q < |orders| ==> AllThreads(g, orders[q])
    modifies tmp
    ensures Values(c) == old(Values(c)) && Values(d) == old(Values(d))
    ensures AllRan(old(Values(tmp)), old(Values(c)), g, orders, tmps)
    ensures forall q :: 0 <= q < |tmps| ==> |tmps[q]| == size
  {
    RemapAll(c, tmp, d, size, g, orders);
    tmps := Snapshot(tmp);
  }

  ghost predicate ReducedAt(tmps: seq<seq<int>>, sendAt: nat, recvAt: nat, after: seq<int>, f: nat) {
    recvAt + f < |after| && InAll(tmps, sendAt + f) && after[recvAt + f] == SlotPool.ColumnSum(tmps, sendAt + f)
  }

  /** What the library's reduce-scatter leaves in a rank's result: its slice, summed over the ranks. */
  ghost predicate Reduced(before: seq<int>, tmps: seq<seq<int>>, sendAt: nat, recvAt: nat, count: nat, after: seq<int>) {
    && |after| == |before|
    && (forall e :: 0 <= e < |after| && !(recvAt <= e < recvAt + count) ==> after[e] == before[e])
    && (forall f: nat :: f < count ==> ReducedAt(tmps, sendAt, recvAt, after, f))
  }

  method ReduceScatter(tmps: seq<seq<int>>, d: array<int>, sendAt: nat, recvAt: nat, count: nat)
    requires forall q :: 0 <= q < |tmps| ==> sendAt + count <= |tmps[q]|
    requires recvAt + count <= d.Length
    modifies d
    ensures Reduced(old(d[..]), tmps, sendAt, recvAt, count, d[..])
  {
    var f := 0;
    while f < count
      invariant f <= count && Reduced(old(d[..]), tmps, sendAt, recvAt, f, d[..])
    {
      assert InAll(tmps, sendAt + f);
      ghost var before := d[..];
      d[recvAt + f] := SlotPool.ColumnSum(tmps, sendAt + f);
      assert d[..] == before[recvAt + f := SlotPool.ColumnSum(tmps, sendAt + f)];
      forall j: nat | j < f + 1 ensures ReducedAt(tmps, sendAt, recvAt, d[..], j) {
        assert j < f ==> ReducedAt(tmps, sendAt, recvAt, before, j);
      }
      f := f + 1;
    }
  }

  /** The collective of one segment: rank k receives slice k of what every rank sends. */
  method ReduceScatterAll(tmps: seq<seq<int>>, d: seq<array<int>>, ghost size: nat, acc: nat, comm: nat)
    requires (forall q :: 0 <= q < |tmps| ==> |tmps[q]| == size) && acc + comm <= size
    requires (forall q :: 0 <= q < |d| ==> d[q].Length == size / |d|) && Injective(d)
    modifies d
    ensures forall k: nat :: k < |d| ==> SliceReduced(old(d[k][..]), tmps, acc, comm, |d|, k, d[k][..])
  {
    var k: nat := 0;
    while k < |d|
      invariant k <= |d|
      invariant forall p :: k <= p < |d| ==> d[p][..] == old(d[p][..])
      invariant forall p: nat :: p < k ==> SliceReduced(old(d[p][..]), tmps, acc, comm, |d|, p, d[p][..])
    {
      ReduceScatterOne(tmps, d[k], size, acc, comm, |d|, k);
      k := k + 1;
    }
  }

  method ReduceScatterOne(tmps: seq<seq<int>>, d: array<int>, ghost size: nat, acc: nat, comm: nat, world: nat, k: nat)
    requires (forall q :: 0 <= q < |tmps| ==> |tmps[q]| == size) && acc + comm <= size
    requires k < world && d.Length == size / world
    modifies d
    ensures SliceReduced(old(d[..]), tmps, acc, comm, world, k, d[..])
  {
    var count, recvAt := Share(comm, world), Share(acc, world);
    SlicesFit(acc, comm, size, world, k);
    ReduceScatter(tmps, d, acc + k * count, recvAt, count);
  }

  ghost predicate SliceReduced(before: seq<int>, tmps: seq<seq<int>>, acc: nat, comm: nat, world: nat, k: nat,
                               after: seq<int>)
    requires world > 0
  {
    MulNonneg(k, Share(comm, world));
    Reduced(before, tmps, acc + k * Share(comm, world), Share(acc, world), Share(comm, world), after)
  }

  /** All slices lie inside the buffers, also where the division is not exact. */
  lemma SlicesFit(acc: nat, comm: nat, size: nat, world: nat, k: nat)
    requires world > 0 && k < world && acc + comm <= size
    ensures 0 <= k * Share(comm, world) && acc + k * Share(comm, world) + Share(comm, world) <= size
    ensures Share(acc, world) + Share(comm, world) <= size / world
  {
    DivBounds(comm, world);
    DivBounds(acc, world);
    DivBounds(size, world);
    SliceWithin(comm, Share(comm, world), world, k);
    QuotientsFit(acc, Share(acc, world), comm, Share(comm, world), size, size / world, world);
  }

  lemma SliceWithin(comm: nat, count: nat, world: nat, k: nat)
    requires k < world && count * world <= comm
    ensures 0 <= k * count && k * count + count <= comm
  {
    MulNonneg(k, count);
    MulLe(k + 1, world, count);
    assert (k + 1) * count == k * count + count;
  }

  lemma QuotientsFit(a: nat, p: nat, b: nat, q: nat, c: nat, r: nat, world: nat)
    requires world > 0 && a + b <= c && p * world <= a && q * world <= b && c < r * world + world
    ensures p + q <= r
  {
    assert (p + q) * world == p * world + q * world;
    if r < p + q {
      MulLe(r + 1, p + q, world);
    }
  }

  // ---------- the launch ----------

  /** The collective of segment i extends what rank k has received. */
  lemma DeliveredStep(before: seq<seq<int>>, cs: seq<seq<int>>, bm: nat, cSeg: seq<nat>, g: Grid, orders: seq<seq<nat>>,
                      tmps: seq<seq<int>>, rows: seq<int>, i: nat, k: nat, dk: seq<int>, dk': seq<int>)
    requires i < |cSeg| && k < |cs| && g.width > 0 && GoodMap(g.re, rows, bm, cSeg, |cs|)
    requires g == SegmentGrid(g.re, bm, cSeg, g.width, i) && AllRan(before, cs, g, orders, tmps)
    requires Delivered(cs, dk, k, g.width, Share(g.acc, |cs|))
    requires SliceReduced(dk, tmps, g.acc, g.Total(), |cs|, k, dk')
    ensures Delivered(cs, dk', k, g.width, Share(g.acc + g.Total(), |cs|))
  {
    var base, m, from, count := SegmentShares(bm, cSeg, g, i, |cs|);
    forall e: nat | from <= e < from + count ensures DeliveredAt(cs, dk', k, g.width, e) {
      ShareDelivered(before, cs, bm, cSeg, g, orders, tmps, rows, i, base, m, k, dk, dk', e);
    }
    SliceKeeps(dk, tmps, g.acc, g.Total(), |cs|, k, dk');
    DeliveredKept(cs, dk, dk', k, g.width, from, from + count);
  }

  lemma SliceKeeps(before: seq<int>, tmps: seq<seq<int>>, acc: nat, comm: nat, world: nat, k: nat, after: seq<int>)
    requires world > 0 && SliceReduced(before, tmps, acc, comm, world, k, after)
    ensures |after| == |before| && forall e :: 0 <= e < |after| && e < Share(acc, world) ==> after[e] == before[e]
  {
  }

  /** A segment that starts at row base * world and has m rows per rank, in elements. */
  lemma SegmentShares(bm: nat, cSeg: seq<nat>, g: Grid, i: nat, world: nat)
    returns (base: nat, m: nat, from: nat, count: nat)
    requires world > 0 && i < |cSeg| && EqualSlices(bm, cSeg, world) && g == SegmentGrid(g.re, bm, cSeg, g.width, i)
    ensures g.begin == ChunkStart(bm, cSeg, i) == base * world && g.count == cSeg[i] * bm == m * world
    ensures from == Share(g.acc, world) == base * g.width && count == Share(g.Total(), world) == m * g.width
    ensures Share(g.acc + g.Total(), world) == from + count
  {
    StartsAligned(bm, cSeg, world, i);
    assert SegmentRows(bm, cSeg, i) % world == 0;
    base, m := g.begin / world, g.count / world;
    SegmentElements(g.begin, base, m, world, g.width, g.acc, g.Total());
    from, count := Share(g.acc, world), Share(g.Total(), world);
  }

  lemma DeliveredKept(cs: seq<seq<int>>, dk: seq<int>, dk': seq<int>, k: nat, width: nat, from: nat, to: nat)
    requires width > 0 && Delivered(cs, dk, k, width, from)
    requires |dk'| == |dk| && forall e :: 0 <= e < |dk'| && e < from ==> dk'[e] == dk[e]
    requires forall e: nat :: from <= e < to ==> DeliveredAt(cs, dk', k, width, e)
    ensures Delivered(cs, dk', k, width, to)
  {
    forall e: nat | e < from ensures DeliveredAt(cs, dk', k, width, e) {
      assert DeliveredAt(cs, dk, k, width, e);
    }
  }

  lemma ShareDelivered(before: seq<seq<int>>, cs: seq<seq<int>>, bm: nat, cSeg: seq<nat>, g: Grid,
                       orders: seq<seq<nat>>, tmps: seq<seq<int>>, rows: seq<int>, i: nat, base: nat, m: nat, k: nat,
                       dk: seq<int>, dk': seq<int>, e: nat)
    requires AllRan(before, cs, g, orders, tmps) && i < |cSeg| && k < |cs|
    requires g.begin == ChunkStart(bm, cSeg, i) == base * |cs| && g.count == cSeg[i] * bm == m * |cs|
    requires g.acc == g.begin * g.width && IsInverse(g.re, rows) && HasRows(rows, bm, cSeg, |cs|)
    requires g.width > 0 && base * g.width <= e < base * g.width + m * g.width
    requires Share(g.acc, |cs|) == base * g.width && Share(g.Total(), |cs|) == m * g.width
    requires SliceReduced(dk, tmps, g.acc, g.Total(), |cs|, k, dk')
    ensures DeliveredAt(cs, dk', k, g.width, e)
  {
    MulNonneg(k, m * g.width);
    ghost var sendAt: nat :| sendAt == g.acc + k * (m * g.width);
    var f := e - base * g.width;
    assert ReducedAt(tmps, sendAt, base * g.width, dk', f);
    ShareHolds(before, cs, bm, cSeg, g, orders, tmps, rows, i, base, m, k, f, sendAt + f, e);
  }

  ghost predicate AllDelivered(cs: seq<seq<int>>, ds: seq<seq<int>>, width: nat, limit: nat)
    requires width > 0
  {
    |ds| == |cs| && forall k: nat :: k < |cs| ==> Delivered(cs, ds[k], k, width, limit)
  }

  lemma AllDeliveredStep(before: seq<seq<int>>, cs: seq<seq<int>>, bm: nat, cSeg: seq<nat>, g: Grid,
                         orders: seq<seq<nat>>, tmps: seq<seq<int>>, rows: seq<int>, i: nat,
                         ds: seq<seq<int>>, ds': seq<seq<int>>, next: nat)
    requires i < |cSeg| && next == g.acc + g.Total() && cs != [] && g.width > 0 && GoodMap(g.re, rows, bm, cSeg, |cs|)
    requires g == SegmentGrid(g.re, bm, cSeg, g.width, i) && AllRan(before, cs, g, orders, tmps)
    requires AllDelivered(cs, ds, g.width, Share(g.acc, |cs|)) && |ds'| == |cs|
    requires forall k: nat :: k < |cs| ==> SliceReduced(ds[k], tmps, g.acc, g.Total(), |cs|, k, ds'[k])
    ensures AllDelivered(cs, ds', g.width, Share(next, |cs|))
  {
    forall k: nat | k < |cs| ensures Delivered(cs, ds'[k], k, g.width, Share(g.acc + g.Total(), |cs|)) {
      DeliveredStep(before, cs, bm, cSeg, g, orders, tmps, rows, i, k, ds[k], ds'[k]);
    }
  }

  /** One turn of the segment loop of `gemm_scatter` on all ranks. */
  method CollectSegment(c: seq<array<int>>, tmp: seq<array<int>>, d: seq<array<int>>, ghost size: nat, g: Grid, comm: nat,
                        orders: seq<seq<nat>>)
    returns (tmps: seq<seq<int>>)
    requires Buffers(c, tmp, d, size) && g.Fits(size) && comm == g.Total() && |orders| == |c|
    requires forall q :: 0 <= q < |orders| ==> AllThreads(g, orders[q])
    modifies tmp, d
    ensures Values(c) == old(Values(c)) && AllRan(old(Values(tmp)), old(Values(c)), g, orders, tmps)
    ensures forall k: nat :: k < |c| ==> SliceReduced(old(d[k][..]), tmps, g.acc, comm, |c|, k, d[k][..])
  {
    tmps := RemapSegment(c, tmp, d, size, g, orders);
    ReduceScatterAll(tmps, d, size, g.acc, comm);
  }

  /** Segments lie one after the other in the buffers. */
  lemma NextSegment(re: seq<int>, bm: nat, cSeg: seq<nat>, width: nat, tileElems: nat, i: nat, size: nat)
    requires width > 0 && i < |cSeg| && tileElems == bm * width
    requires ChunkStart(bm, cSeg, |cSeg|) <= |re| && ElementStart(bm, cSeg, width, |cSeg|) <= size
    ensures var g := SegmentGrid(re, bm, cSeg, width, i);
            && g.Fits(size) && tileElems * cSeg[i] == g.Total() && g.acc / width == g.begin
            && g.acc + g.Total() == ElementStart(bm, cSeg, width, i + 1)
  {
    ChunkStartNext(bm, cSeg, i);
    ChunkStartMonotone(bm, cSeg, i + 1, |cSeg|);
    SegmentEnds(ChunkStart(bm, cSeg, i), cSeg[i], bm, width, ChunkStart(bm, cSeg, |cSeg|));
  }

  lemma SegmentEnds(start: nat, tiles: nat, bm: nat, width: nat, end: nat)
    requires width > 0 && start + tiles * bm <= end
    ensures bm * width * tiles == tiles * bm * width && start * width / width == start
    ensures start * width + tiles * bm * width == (start + tiles * bm) * width <= end * width
  {
    MulSwap(bm, width, tiles);
    assert bm * tiles == tiles * bm;
    MulLe(start + tiles * bm, end, width);
    DivModUnique(start * width, start, 0, width);
  }

  /** The segment loop; the threads of each kernel run in the order that `order` gives. */
  method CollectSegments(c: seq<array<int>>, tmp: seq<array<int>>, d: seq<array<int>>, ghost size: nat, re: seq<int>, bm: nat,
                         width: nat, tileElems: nat, cSeg: seq<nat>, order: (nat, nat) -> seq<nat>, ghost rows: seq<int>)
    requires Buffers(c, tmp, d, size) && width > 0 && tileElems == bm * width
    requires ChunkStart(bm, cSeg, |cSeg|) <= |re| && ElementStart(bm, cSeg, width, |cSeg|) <= size
    requires forall i: nat, q: nat :: i < |cSeg| ==> AllThreads(SegmentGrid(re, bm, cSeg, width, i), order(i, q))
    modifies tmp, d
    ensures Values(c) == old(Values(c))
    ensures GoodMap(re, rows, bm, cSeg, |c|) ==>
              AllDelivered(Values(c), Values(d), width, Share(ElementStart(bm, cSeg, width, |cSeg|), |c|))
  {
    var acc, i: nat := 0, 0;
    ghost var cs := Values(c);
    while i < |cSeg|
      invariant i <= |cSeg| && acc == ElementStart(bm, cSeg, width, i) && Values(c) == cs
      invariant GoodMap(re, rows, bm, cSeg, |c|) ==> AllDelivered(cs, Values(d), width, Share(acc, |c|))
    {
      NextSegment(re, bm, cSeg, width, tileElems, i, size);
      var comm := tileElems * cSeg[i];
      var g := Grid(re, acc, acc / width, cSeg[i] * bm, width);
      var orders := seq(|c|, q requires 0 <= q < |c| => order(i, q));
      ghost var before, ds := Values(tmp), Values(d);
      var tmps := CollectSegment(c, tmp, d, size, g, comm, orders);
      acc := acc + comm;
      if GoodMap(re, rows, bm, cSeg, |c|) {
        AllDeliveredStep(before, cs, bm, cSeg, g, orders, tmps, rows, i, ds, Values(d), acc);
      }
      i := i + 1;
    }
  }

  /** The tile count divides the elements into whole tiles. */
  lemma TileElements(mSize: nat, nSize: nat, bm: nat, bn: nat)
    requires mSize > 0 && nSize > 0 && bm > 0 && bn > 0 && mSize % bm == 0 && nSize % bn == 0
    ensures (mSize / bm) * (nSize / bn) > 0 && mSize * nSize / ((mSize / bm) * (nSize / bn)) == bm * bn
  {
    var m, n := mSize / bm, nSize / bn;
    MulPos(m, n);
    Regroup(m, n, bm, bn);
    DivModUnique(mSize * nSize, bm * bn, 0, m * n);
  }

  lemma AloneDelivered(cs: seq<seq<int>>, ds: seq<seq<int>>, width: nat, limit: nat)
    requires width > 0 && |cs| == 1 && ds == cs && limit <= |cs[0]|
    ensures AllDelivered(cs, ds, width, limit)
  {
    forall e: nat | e < limit ensures DeliveredAt(cs, ds[0], 0, width, e) {
      DivBounds(e, width);
      assert seq(|cs|, q requires 0 <= q < |cs| => cs[q][e]) == [cs[0][e]];
      assert Sum([cs[0][e]]) == cs[0][e] + Sum([]);
    }
  }

  /** One rank: the whole tensor is copied. */
  method CopyAlone(c: array<int>, d: array<int>)
    requires c != d && c.Length == d.Length
    modifies d
    ensures d[..] == c[..]
  {
    forall e | 0 <= e < d.Length {
      d[e] := c[e];
    }
  }

  /** `gemm_scatter` after its GEMM, on all ranks.  An error exactly when the matrix is not made of whole tiles. */
  method GemmScatter(mSize: nat, nSize: nat, bm: nat, bn: nat, c: seq<array<int>>, tmp: seq<array<int>>,
                     d: seq<array<int>>, re: seq<int>, cSeg: seq<nat>, order: (nat, nat) -> seq<nat>,
                     ghost size: nat, ghost rows: seq<int>)
    returns (ok: bool)
    requires mSize > 0 && nSize > 0 && bm > 0 && bn > 0 && size == mSize * nSize && Buffers(c, tmp, d, size)
    requires ChunkStart(bm, cSeg, |cSeg|) <= |re| && ElementStart(bm, cSeg, bn, |cSeg|) <= size
    requires forall i: nat, q: nat :: i < |cSeg| ==> AllThreads(SegmentGrid(re, bm, cSeg, bn, i), order(i, q))
    modifies tmp, d
    ensures ok <==> mSize % bm == 0 && nSize % bn == 0
    ensures Values(c) == old(Values(c)) && (!ok ==> Values(d) == old(Values(d)))
    ensures ok && GoodMap(re, rows, bm, cSeg, |c|) ==>
              AllDelivered(Values(c), Values(d), bn, Share(ElementStart(bm, cSeg, bn, |cSeg|), |c|))
  {
    ok := mSize % bm == 0 && nSize % bn == 0;
    if !ok {
      return;
    }
    TileElements(mSize, nSize, bm, bn);
    if |c| == 1 {
      CopyAlone(c[0], d[0]);
      AloneDelivered(Values(c), Values(d), bn, Share(ElementStart(bm, cSeg, bn, |cSeg|), |c|));
      return;
    }
    var tileElems := mSize * nSize / ((mSize / bm) * (nSize / bn));
    CollectSegments(c, tmp, d, size, re, bm, bn, tileElems, cSeg, order, rows);
  }

  /** Read row by row: row r of rank k's result is row r * world + k of the output, summed over the ranks. */
  lemma RankRows(cs: seq<seq<int>>, ds: seq<seq<int>>, width: nat, limit: nat, k: nat, row: nat, col: nat)
    requires width > 0 && k < |cs| && AllDelivered(cs, ds, width, limit) && col < width && row * width + col < limit
    ensures 0 <= row * width + col < |ds[k]| && 0 <= (row * |cs| + k) * width + col
    ensures InAll(cs, (row * |cs| + k) * width + col)
    ensures ds[k][row * width + col] == SlotPool.ColumnSum(cs, (row * |cs| + k) * width + col)
  {
    SourceOfRow(row, col, k, |cs|, width);
    assert DeliveredAt(cs, ds[k], k, width, row * width + col);
  }
}
