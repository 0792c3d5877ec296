/** The epilogue object and the waiting kernel, as code that updates MM in place. */
module Epilogue {
  import opened Arith
  import opened Sequences
  import opened TileSignal
  import opened PackedLayout
  import opened PackedOutput
  import opened Wrappers

  /** The launch parameters the epilogue reads (`SignalingEpilogueParams`). */
  datatype SignalParams = SignalParams(
    monitoredColumn: int,        // tile columns of the logical output
    reorderedColumn: int,        // tile columns of the packed output; <= 0 means unset
    reorder: Option<seq<int>>,   // logical tile -> packed tile, when given
    threadblockM: int,
    threadblockN: int,
    cSeg: seq<nat>,
    arrivalsPerTile: int,        // <= 0 means use the warp-group count
    monitor: bool)

  function PackedColumns(p: SignalParams): int {
    if p.reorderedColumn <= 0 then p.monitoredColumn else p.reorderedColumn
  }

  /** Arrivals of one tile: the given count, or else one per warp group, and one at least. */
  function ExpectedArrivals(p: SignalParams, warpGroups: int): (r: int)
    ensures p.arrivalsPerTile > 0 ==> r == p.arrivalsPerTile
    ensures p.arrivalsPerTile <= 0 < warpGroups ==> r == warpGroups
    ensures p.arrivalsPerTile <= 0 && warpGroups <= 0 ==> r == 1
    ensures r > 0
  {
    var n := if p.arrivalsPerTile > 0 then p.arrivalsPerTile else warpGroups;
    if n <= 0 then 1 else n
  }

  /** The output shape the base epilogue builds its descriptors from. */
  function EpilogueProblemShape(p: SignalParams, m: nat, n: nat): (int, int) {
    if p.threadblockM <= 0 || p.threadblockN <= 0 || p.monitoredColumn <= 0 || PackedColumns(p) <= 0 then
      (m, n)
    else
      var tiles := CeilDiv(m, p.threadblockM) * p.monitoredColumn;
      (CeilDiv(tiles, PackedColumns(p)) * p.threadblockM, PackedColumns(p) * p.threadblockN)
  }

  /** The rows hold the tiles, cols in each packed row of height tm, and one packed row less would not. */
  ghost predicate IsLeastCover(rows: int, tiles: int, cols: int, tm: int) {
    exists r: int :: PackedRowsAre(r, rows, tm) && (r - 1) * cols < tiles <= r * cols
  }

  predicate PackedRowsAre(r: int, rows: int, tm: int) {
    rows == r * tm
  }

  lemma CeilRows(tiles: nat, cols: nat, tm: nat)
    requires cols > 0
    ensures IsLeastCover(CeilDiv(tiles, cols) * tm, tiles, cols, tm)
  {
    var r: int := CeilDiv(tiles, cols);
    CeilDivLeast(tiles, cols, r);
    CeilDivLeast(tiles, cols, r - 1);
    assert PackedRowsAre(r, r * tm, tm);
  }

  lemma PackedCoordinate(tile: nat, tiles: nat, cols: nat, tm: nat)
    requires tile < tiles && cols > 0
    ensures tile - tile / cols * cols == tile % cols && tile / cols >= 0
    ensures (tile / cols + 1) * tm <= CeilDiv(tiles, cols) * tm
  {
    CeilDivLeast(tiles, cols, CeilDiv(tiles, cols));
    DivLess(tile, CeilDiv(tiles, cols), cols);
    MulLe(tile / cols + 1, CeilDiv(tiles, cols), tm);
  }

  /** Unset tile shape or columns leave the problem shape alone. */
  lemma UnsetShape(p: SignalParams, m: nat, n: nat)
    requires p.threadblockM <= 0 || p.threadblockN <= 0 || p.monitoredColumn <= 0
    ensures EpilogueProblemShape(p, m, n) == (m, n)
  {
  }

  /** The CTA's block of the output is at the packed tile coordinate that was passed on. */
  ghost predicate AtCoordinate<T>(g: Tiling, a: array2<T>, d: array2<T>, ctaM: nat, ctaN: nat,
                                  packedCtaM: nat, packedCtaN: nat, i: nat, j: nat)
    reads a, d
  {
    && 0 <= ctaM * g.y.tm + i < a.Length0 && 0 <= ctaN * g.y.tn + j < a.Length1
    && 0 <= packedCtaM * g.y.tm + i < d.Length0 && 0 <= packedCtaN * g.y.tn + j < d.Length1
    && a[ctaM * g.y.tm + i, ctaN * g.y.tn + j] == d[packedCtaM * g.y.tm + i, packedCtaN * g.y.tn + j]
  }

  /** What `Store` passes on is where `unpack` looks for the tile. */
  lemma StoreIsWhereUnpackReads<T>(g: Tiling, a: array2<T>, d: array2<T>, ctaM: nat, ctaN: nat, tile: nat,
                                   packedCtaM: nat, packedCtaN: nat)
    requires g.Valid() && Fits(g, a, d) && ctaM < g.rows && ctaN < g.cols
    requires 0 <= ctaM * g.cols + ctaN < |g.ra| && tile == g.ra[ctaM * g.cols + ctaN]
    requires packedCtaM * g.y.cols + packedCtaN == tile && packedCtaN < g.y.cols
    ensures SameTile(g, a, d, ctaM, ctaN) <==>
            forall i: nat, j: nat :: i < g.y.tm && j < g.y.tn ==>
              AtCoordinate(g, a, d, ctaM, ctaN, packedCtaM, packedCtaN, i, j)
  {
    DivModUnique(tile, packedCtaM, packedCtaN, g.y.cols);
    forall i: nat, j: nat | i < g.y.tm && j < g.y.tn
      ensures SameElement(g, a, d, ctaM, ctaN, i, j) <==> AtCoordinate(g, a, d, ctaM, ctaN, packedCtaM, packedCtaN, i, j)
    {
    }
  }

  /** The address that the overlap reasons about is the element's place in the row-major packed matrix. */
  lemma StoredAddress(y: Layout, tile: nat, packedCtaM: nat, packedCtaN: nat, packedN: nat, i: nat, j: nat)
    requires y.Valid() && packedCtaM * y.cols + packedCtaN == tile && packedCtaN < y.cols && packedN == y.cols * y.tn
    ensures y.Address(tile, i, j) == (packedCtaM * y.tm + i) * packedN + (packedCtaN * y.tn + j)
  {
    DivModUnique(tile, packedCtaM, packedCtaN, y.cols);
  }

  class ReorderSignalEpilogue {
    const params: SignalParams
    const warpGroups: int
    var reorderedTile: int
    var m: int
    var n: int

    constructor (params: SignalParams, warpGroups: int)
      ensures this.params == params && this.warpGroups == warpGroups
      ensures reorderedTile == 0 && m == 0 && n == 0
    {
      this.params := params;
      this.warpGroups := warpGroups;
      reorderedTile, m, n := 0, 0, 0;
    }

    /** Picks the packed tile of a CTA, remembers it for the tail, and returns the shape and tile
        coordinate that are passed on: inside the returned shape, at the layout's cell for that tile. */
    method Store(problemM: nat, problemN: nat, ctaM: nat, ctaN: nat)
      returns (packedM: int, packedN: int, packedCtaM: int, packedCtaN: int)
      requires params.threadblockM > 0 && params.threadblockN > 0
      requires ctaN < params.monitoredColumn && ctaM < CeilDiv(problemM, params.threadblockM)
      requires params.reorder.Some? ==>
                 && |params.reorder.value| == CeilDiv(problemM, params.threadblockM) * params.monitoredColumn
                 && Below(params.reorder.value, |params.reorder.value|)
      modifies this
      ensures m == problemM && n == problemN
      ensures var logical := ctaM * params.monitoredColumn + ctaN;
              && 0 <= logical < CeilDiv(problemM, params.threadblockM) * params.monitoredColumn
              && reorderedTile == match params.reorder { case None => logical case Some(ra) => ra[logical] }
      ensures reorderedTile >= 0 && PackedColumns(params) > 0
      ensures var y := Layout(params.threadblockM, params.threadblockN, PackedColumns(params));
              && packedCtaM * params.threadblockM == y.Row(reorderedTile, 0)
              && packedCtaN * params.threadblockN == y.Col(reorderedTile, 0)
      ensures 0 <= packedCtaN < PackedColumns(params)
      ensures 0 <= packedCtaM && (packedCtaM + 1) * params.threadblockM <= packedM
      ensures (packedM, packedN) == EpilogueProblemShape(params, problemM, problemN)
      ensures var cols := if params.reorderedColumn > 0 then params.reorderedColumn else params.monitoredColumn;
              && packedCtaM * cols + packedCtaN == reorderedTile && 0 <= packedCtaN < cols
              && packedN == cols * params.threadblockN
              && IsLeastCover(packedM, CeilDiv(problemM, params.threadblockM) * params.monitoredColumn, cols, params.threadblockM)
    {
      m, n := problemM, problemN;
      var originalCols := params.monitoredColumn;
      var packedCols := params.reorderedColumn;
      if packedCols <= 0 {
        packedCols := originalCols;
      }
      var logicalTile := ctaM * originalCols + ctaN;
      var originalRows := CeilDiv(problemM, params.threadblockM);
      PairBound(ctaM, ctaN, originalRows, originalCols);
      var packedTile := logicalTile;
      if params.reorder.Some? {
        packedTile := params.reorder.value[logicalTile];
      }
      reorderedTile := packedTile;
      var tileNum := originalRows * originalCols;
      var packedRows := CeilDiv(tileNum, packedCols);
      packedM := packedRows * params.threadblockM;
      packedN := packedCols * params.threadblockN;
      packedCtaM := packedTile / packedCols;
      packedCtaN := packedTile - packedCtaM * packedCols;
      PackedCoordinate(packedTile, tileNum, packedCols, params.threadblockM);
      CeilRows(tileNum, packedCols, params.threadblockM);
    }

    /** `tile_num` as the tail recomputes it for the monitor region. */
    function TileNum(): int
      reads this
      requires params.threadblockM > 0 && params.threadblockN > 0 && m >= 0 && n >= 0
    {
      CeilDiv(m, params.threadblockM) * CeilDiv(n, params.threadblockN)
    }

    /** It is the number of logical tiles whenever the tile columns that are monitored just hold the problem. */
    lemma TileNumIs()
      requires params.threadblockM > 0 && params.threadblockN > 0 && m >= 0 && n >= 0
      requires (params.monitoredColumn - 1) * params.threadblockN < n <= params.monitoredColumn * params.threadblockN
      ensures TileNum() == CeilDiv(m, params.threadblockM) * params.monitoredColumn
    {
      CeilDivLeast(n, params.threadblockN, params.monitoredColumn);
      CeilDivLeast(n, params.threadblockN, params.monitoredColumn - 1);
    }

    /** This object runs the tail of packed tile `reorderedTile` under configuration c. */
    ghost predicate Serves(c: Config, mm: array<int>)
      reads this
    {
      && c.Valid() && c.cSeg == params.cSeg && c.monitor == params.monitor
      && c.arrivals == ExpectedArrivals(params, warpGroups)
      && params.threadblockM > 0 && params.threadblockN > 0 && m >= 0 && n >= 0
      && TileNum() == |c.ra|
      && 0 <= reorderedTile < |c.ra|
      && mm.Length >= c.MemorySize()
    }

    /** atomicAdd: the only way the tail touches a counter. */
    static method AtomicAdd(mm: array<int>, at: int, amount: int) returns (previous: int)
      requires 0 <= at < mm.Length
      modifies mm
      ensures mm[..] == old(mm[..])[at := old(mm[at]) + amount] && previous == old(mm[at])
    {
      previous := mm[at];
      mm[at] := previous + amount;
    }

    /** The segment walk: never leaves kCommu_Seg_Array and stops at the tile's segment. */
    method FindSegment() returns (seg: nat)
      requires 0 <= reorderedTile < Sum(params.cSeg)
      ensures seg < |params.cSeg| && seg == SegmentOf(params.cSeg, reorderedTile)
      ensures Sum(params.cSeg[..seg]) <= reorderedTile < Sum(params.cSeg[..seg + 1])
    {
      ghost var c := Config(params.cSeg, [], 1, false);
      var tile := reorderedTile;
      SumSnoc(params.cSeg, 0);
      var idxBound: int := params.cSeg[0];
      seg := 0;
      assert params.cSeg[..|params.cSeg|] == params.cSeg;
      while idxBound <= tile
        invariant seg < |params.cSeg| && idxBound == Sum(params.cSeg[..seg + 1])
        invariant Sum(params.cSeg[..seg]) <= tile
        decreases |params.cSeg| - seg
      {
        seg := seg + 1;
        idxBound := idxBound + params.cSeg[seg];
        SumSnoc(params.cSeg, seg);
      }
      SegmentOfUnique(c, tile, seg);
    }

    /** One atomic step of `store_tail` by a warp group that stands at `pc`. */
    method StoreTailStep(mm: array<int>, pc: Pc, ghost c: Config) returns (pc': Pc)
      requires Serves(c, mm)
      requires pc.Count? || pc.Store? ==> c.monitor
      modifies mm
      ensures (mm[..], pc') == WarpStep(c, old(mm[..]), pc, reorderedTile)
      ensures pc.Working? ==>
                && 0 <= |params.cSeg| + reorderedTile < mm.Length
                && mm[|params.cSeg| + reorderedTile] == old(mm[|params.cSeg| + reorderedTile]) + 1
                && (params.arrivalsPerTile <= 0 < warpGroups ==>
                      (pc'.Signal? <==> mm[|params.cSeg| + reorderedTile] == warpGroups))
      ensures pc.Signal? ==>
                exists s: nat ::
                  && s < |params.cSeg| && Sum(params.cSeg[..s]) <= reorderedTile < Sum(params.cSeg[..s + 1])
                  && s < mm.Length && mm[..] == old(mm[..])[s := old(mm[s]) + 1]
      ensures pc.Count? ==>
                var at := |params.cSeg| + |c.ra|;
                0 <= at < mm.Length && pc' == Pc.Store(old(mm[at])) && mm[..] == old(mm[..])[at := old(mm[at]) + 1]
      ensures pc.Store? ==>
                var at := |params.cSeg| + |c.ra| + 1 + reorderedTile;
                0 <= at < mm.Length && mm[..] == old(mm[..])[at := pc.order]
    {
      var tile := reorderedTile;
      var numSegments := |params.cSeg|;
      pc' := pc;
      match pc {
        case Working =>
          var expected := ExpectedArrivals(params, warpGroups);
          var previous := AtomicAdd(mm, numSegments + tile, 1);
          pc' := if previous == expected - 1 then Signal else Passed;
        case Signal =>
          var seg := FindSegment();
          var _ := AtomicAdd(mm, seg, 1);
          pc' := if params.monitor then Count else Done;
        case Count =>
          var globalOrder := AtomicAdd(mm, numSegments + TileNum(), 1);
          pc' := Pc.Store(globalOrder);
        case Store(globalOrder) =>
          mm[numSegments + TileNum() + 1 + tile] := globalOrder;
          pc' := Done;
        case Passed =>
        case Done =>
      }
    }
  }

  /** atomicCAS. */
  method AtomicCas(mm: array<int>, at: nat, expected: int, desired: int) returns (previous: int)
    requires at < mm.Length
    modifies mm
    ensures previous == old(mm[at])
    ensures mm[..] == if previous == expected then old(mm[..])[at := desired] else old(mm[..])
  {
    previous := mm[at];
    if previous == expected {
      mm[at] := desired;
    }
  }

  /** The communication stream: `waited` counts the wait kernels that have returned. */
  class CommStream {
    const cSeg: seq<nat>
    var waited: nat

    constructor (cSeg: seq<nat>)
      ensures this.cSeg == cSeg && waited == 0
    {
      this.cSeg := cSeg;
      waited := 0;
    }

    /** One turn of the spin loop of `kernel_wait_flag` for the segment whose turn it is. */
    method WaitFlagTurn(mm: array<int>, ghost c: Config, ghost wg: seq<seq<Pc>>)
      requires c.cSeg == cSeg && Shape(c, State(mm[..], wg, waited)) && waited < |cSeg|
      modifies this, mm
      ensures State(mm[..], wg, waited) == PollStep(c, State(old(mm[..]), wg, old(waited)))
      ensures old(waited) < mm.Length
      ensures if old(mm[waited]) == cSeg[old(waited)]
              then waited == old(waited) + 1 && mm[..] == old(mm[..])[old(waited) := 0]
              else waited == old(waited) && mm[..] == old(mm[..])
    {
      var that := cSeg[waited];
      var previous := AtomicCas(mm, waited, that, 0);
      if previous == that {
        waited := waited + 1;
      }
    }
  }
}
