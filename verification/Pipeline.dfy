/**
 From observed completion orders to a running overlap: the permutation and the segment sizes that
 the search produces are what the signalling protocol needs, and the segments follow the observed order.
 */
module Pipeline {
  import opened Arith
  import opened Sequences
  import opened SearchPartitions
  import opened SearchLatency
  import SearchSelect
  import RowRemap
  import opened SearchHint
  import opened StableHint
  import opened TileSignal
  import opened PackedLayout
  import opened Overlap

  /** The hint of the accepted samples lists tiles, without repeats. */
  lemma HintIsGood(rounds: Rounds, tileNum: nat, wSize: nat, stable: seq<seq<nat>>)
    requires StableLists(rounds, tileNum, wSize, stable)
    ensures GoodHint(HintOf(stable), tileNum)
  {
    var hint := HintOf(stable);
    forall i | 0 <= i < |hint| ensures 0 <= hint[i] < tileNum {
      assert hint[i] in hint;
      HintTiles(rounds, tileNum, wSize, stable, hint[i]);
    }
  }

  /** The launch configuration of a candidate segmentation and a reorder permutation. */
  ghost function Launch(p: SearchSelect.Problem, units: seq<nat>, ra: seq<int>, arrivals: nat): Config
    requires p.Valid() && IsComposition(units, p.Units())
  {
    Config(SearchSelect.Segments(p, units), ra, arrivals, false)
  }

  /** Any candidate with any good hint meets the preconditions of the signalling protocol. */
  lemma LaunchIsValid(p: SearchSelect.Problem, units: seq<nat>, hint: seq<int>, ra: seq<int>, arrivals: nat)
    requires p.Valid() && IsComposition(units, p.Units()) && arrivals > 0
    requires GoodHint(hint, p.tiles) && IsReorder(ra, hint, p.tiles)
    ensures Launch(p, units, ra, arrivals).Valid()
  {
    ReorderIsPermutation(ra, hint, p.tiles);
  }

  /** So its overlap is race-free with the tuner's packed width of one tile, in every interleaving. */
  lemma TunedOverlapIsSafe(p: SearchSelect.Problem, units: seq<nat>, hint: seq<int>, ra: seq<int>, arrivals: nat,
                           y: Layout, s: nat)
    requires p.Valid() && IsComposition(units, p.Units()) && arrivals > 0
    requires GoodHint(hint, p.tiles) && IsReorder(ra, hint, p.tiles)
    requires y.Valid() && y.cols == 1 && s < |SearchSelect.Segments(p, units)|
    ensures Launch(p, units, ra, arrivals).Valid()
    ensures CollectiveReadsFinishedTiles(Launch(p, units, ra, arrivals), y, s)
  {
    LaunchIsValid(p, units, hint, ra, arrivals);
    SingleColumnIsSafe(Launch(p, units, ra, arrivals), y, s);
  }

  /** Every segment but the last ends on a whole number of groups. */
  lemma SegmentBoundary(p: SearchSelect.Problem, units: seq<nat>, k: nat)
    requires p.Valid() && IsComposition(units, p.Units()) && k < |units|
    ensures k <= |SearchSelect.Segments(p, units)|
    ensures Sum(SearchSelect.Segments(p, units)[..k]) == Sum(units[..k]) * (p.computeSms * p.groupSize)
  {
    var group := p.computeSms * p.groupSize;
    MulPos(p.computeSms, p.groupSize);
    assert SearchSelect.Segments(p, units)[..k] == Scaled(units[..k], group);
    SumScaled(units[..k], group);
  }

  /** The same with the tiles of a group as one number. */
  lemma BoundaryTiles(p: SearchSelect.Problem, units: seq<nat>, k: nat, x: nat) returns (least: nat)
    requires p.Valid() && IsComposition(units, p.Units()) && k < |units| && x == Sum(units[..k])
    ensures least == p.groupSize * p.computeSms
    ensures k <= |SearchSelect.Segments(p, units)| && Sum(SearchSelect.Segments(p, units)[..k]) == x * least
  {
    SegmentBoundary(p, units, k);
    MulPos(p.computeSms, p.groupSize);
    least := p.computeSms * p.groupSize;
  }

  /** A tile whose new position is in the first x groups comes from the hint, and was observed among the
      first x windows of completions in every sample of every round. */
  lemma ReorderedTileFinishesEarly(rounds: Rounds, tileNum: nat, wSize: nat, stable: seq<seq<nat>>, least: nat,
                                   ra: seq<int>, x: nat, t: nat, r: nat, i: nat)
    requires WellShaped(rounds, tileNum) && StableLists(rounds, tileNum, wSize, stable) && x <= |stable|
    requires EachAtLeast(stable, x, least)
    requires IsReorder(ra, HintOf(stable), tileNum)
    requires t < tileNum && ra[t] < x * least
    requires r < |rounds| && i < |rounds[r]|
    ensures 0 <= rounds[r][i][t] < x * wSize
  {
    var hint := HintOf(stable);
    ReorderIsPermutation(ra, hint, tileNum);
    InversePermutations(ra, hint + Tail(hint, tileNum));
    HintGrows(rounds, tileNum, wSize, stable, least, x, r, i);
    HintPrefix(stable, x);
    var p: nat := ra[t];
    assert hint[p] == t;
    EarlyInHint(rounds, tileNum, wSize, stable, least, x, p, r, i);
  }

  /** The tiles of every segment before a boundary of x groups that the observed windows cover were
      all among the first x windows of completions, whenever they were observed. */
  lemma SegmentsFollowObservedOrder(rounds: Rounds, p: SearchSelect.Problem, wSize: nat, nominal: int,
                                    stable: seq<seq<nat>>, units: seq<nat>, ra: seq<int>, k: nat, x: nat,
                                    t: nat, r: nat, i: nat)
    requires p.Valid() && IsComposition(units, p.Units()) && k < |units| && x == Sum(units[..k])
    requires WellShaped(rounds, p.tiles) && wSize > 0
    requires |stable| == CeilDiv(p.tiles, wSize) && StableLists(rounds, p.tiles, wSize, stable)
    requires IsEffectiveGroup(p.groupSize, stable, p.tiles, wSize, p.computeSms, nominal)
    requires IsReorder(ra, HintOf(stable), p.tiles)
    requires x * wSize <= p.tiles
    requires t < p.tiles && ra[t] < Sum(SearchSelect.Segments(p, units)[..k])
    requires r < |rounds| && i < |rounds[r]|
    ensures 0 <= rounds[r][i][t] < x * wSize
  {
    var least := BoundaryTiles(p, units, k, x);
    WindowsExist(p.tiles, wSize, x);
    FirstWindowsAreStable(p.tiles, wSize, p.computeSms, nominal, stable, p.groupSize, x);
    ReorderedTileFinishesEarly(rounds, p.tiles, wSize, stable, least, ra, x, t, r, i);
  }

  /** What the search hands to the launch. */
  datatype Plan = NoPlan | Plan(ra: seq<int>, cSeg: seq<nat>)

  /** The plan reorders by the hint and uses the earliest cheapest segmentation, candidate b. */
  ghost predicate IsPlan(plan: Plan, p: SearchSelect.Problem, m: Model, hint: seq<int>, b: nat) {
    && p.Valid() && m.Valid() && plan.Plan? && GoodHint(hint, p.tiles) && IsReorder(plan.ra, hint, p.tiles)
    && SearchSelect.EarliestMinimum(SearchSelect.Verdicts(p, m), b)
    && IsComposition(SearchSelect.Candidates(p)[b], p.Units())
    && plan.cSeg == SearchSelect.Segments(p, SearchSelect.Candidates(p)[b])
  }

  /** Every plan is safe to launch, whatever the tile shape and the number of warp groups. */
  lemma PlanIsSafe(plan: Plan, p: SearchSelect.Problem, m: Model, hint: seq<int>, b: nat, arrivals: nat, y: Layout,
                   s: nat)
    requires IsPlan(plan, p, m, hint, b) && arrivals > 0 && y.Valid() && y.cols == 1 && s < |plan.cSeg|
    ensures Config(plan.cSeg, plan.ra, arrivals, false).Valid()
    ensures CollectiveReadsFinishedTiles(Config(plan.cSeg, plan.ra, arrivals, false), y, s)
  {
    TunedOverlapIsSafe(p, SearchSelect.Candidates(p)[b], hint, plan.ra, arrivals, y, s);
  }

  /** The tuning run after sampling: hint, permutation, segmentation.  It plans exactly when the hint is
      accepted and some evaluated segmentation is below the start value. */
  method Tune(rounds: Rounds, tiles: nat, wSize: nat, computeSms: nat, nominal: int, minEffective: nat, m: Model)
    returns (plan: Plan, ghost stable: seq<seq<nat>>, effective: int, ghost best: nat)
    requires WellShaped(rounds, tiles) && rounds != [] && tiles > 0 && wSize > 0 && computeSms > 0 && minEffective > 0
    requires m.Valid()
    ensures StableLists(rounds, tiles, wSize, stable)
    ensures IsEffectiveGroup(effective, stable, tiles, wSize, computeSms, nominal)
    ensures plan.Plan? ==> effective > 0
    ensures plan.Plan? ==> IsPlan(plan, SearchSelect.Problem(tiles, computeSms, effective), m, HintOf(stable), best)
    ensures plan.Plan? <==> effective >= minEffective && SomeVerdictBelow(tiles, computeSms, effective, m)
  {
    plan, best := NoPlan, 0;
    var error, ok, hint;
    error, ok, hint, effective, stable := ComputeStableHintFromRounds(rounds, tiles, wSize, computeSms, nominal, minEffective);
    if !ok {
      return;
    }
    HintIsGood(rounds, tiles, wSize, stable);
    plan, best := PlanFromHint(SearchSelect.Problem(tiles, computeSms, effective), m, hint);
  }

  ghost predicate SomeVerdictBelow(tiles: nat, computeSms: nat, effective: int, m: Model) {
    && effective > 0 && SearchSelect.Problem(tiles, computeSms, effective).Valid() && m.Valid()
    && exists v :: v in SearchSelect.Verdicts(SearchSelect.Problem(tiles, computeSms, effective), m) &&
         v.Some? && v.value < SearchSelect.NO_LATENCY
  }

  method PlanFromHint(p: SearchSelect.Problem, m: Model, hint: seq<nat>) returns (plan: Plan, ghost best: nat)
    requires p.Valid() && m.Valid() && GoodHint(hint, p.tiles)
    ensures plan.Plan? ==> IsPlan(plan, p, m, hint, best)
    ensures plan.Plan? <==> SomeVerdictBelow(p.tiles, p.computeSms, p.groupSize, m)
  {
    var reordered, ra := ReorderIndices(p.tiles, hint);
    var cSeg, minDur, evaluated;
    ghost var chosen;
    cSeg, minDur, evaluated, chosen := SearchSelect.SelectSegmentation(p, m);
    assert p == SearchSelect.Problem(p.tiles, p.computeSms, p.groupSize);
    if cSeg.None? {
      return NoPlan, 0;
    }
    SearchSelect.CandidateIsComposition(p, chosen.value);
    return Plan(ra, cSeg.value), chosen.value;
  }

  /** The row map for the tuner's segments, which add up to the rounded-up tile count: an error exactly
      when the tiles do not fit the matrix, and a permutation otherwise, whatever the memory held. */
  method RemapRows(mSize: nat, nSize: nat, bm: nat, bn: nat, cSeg: seq<nat>, world: nat, memory: seq<int>)
    returns (r: RowRemap.Outcome)
    requires mSize > 0 && nSize > 0 && bm > 0 && bn > 0 && world > 0
    requires Sum(cSeg) == CeilDiv(mSize, bm) * CeilDiv(nSize, bn)
    requires |memory| == RowRemap.Rows(mSize, nSize, bn)
    ensures r == RowRemap.SizeMismatch <==> mSize % bm != 0 || nSize % bn != 0
    ensures r != RowRemap.SizeMismatch ==>
              && r.Remap? && IsPermutation(r.remap)
              && RowRemap.ChunkStart(bm, cSeg, |cSeg|) == |memory|
              && RowRemap.IsInverse(r.remap, RowRemap.Reordered(bm, cSeg, world, |cSeg|))
  {
    RowRemap.TileCountsAgree(mSize, nSize, bm, bn, CeilDiv(mSize, bm), CeilDiv(nSize, bn));
    r := RowRemap.GenerateRowRemapArray(mSize, nSize, bm, bn, cSeg, world, memory);
    if r != RowRemap.SizeMismatch {
      RowRemap.ChunksCoverRows(mSize, nSize, bm, bn, cSeg);
      RowRemap.PermutationIffWholeTiles(mSize, nSize, bm, bn, cSeg, world);
      assert RowRemap.FinalRows(bm, cSeg, world, memory) == RowRemap.Reordered(bm, cSeg, world, |cSeg|);
      InversePermutations(r.remap, RowRemap.FinalRows(bm, cSeg, world, memory));
    }
  }
}
