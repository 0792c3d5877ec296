/**
 The end-to-end promise of the overlap: when the stream starts the collective of a segment,
 every element it hands over has been stored.  The stream waits on segments in order and gives
 segment s the element range [Start(s) * tm * tn, Start(s + 1) * tm * tn) of the packed output.
 */
module Overlap {
  import opened Arith
  import opened Sequences
  import opened TileSignal
  import opened TileSignalRuns
  import opened PackedLayout

  /** In every run that is past the wait on s, every tile element in the slice that collective s is
      given belongs to a tile all of whose warp groups have arrived. */
  ghost predicate CollectiveReadsFinishedTiles(c: Config, y: Layout, s: nat)
    requires c.Valid() && y.Valid() && s < |c.cSeg|
  {
    forall mm: seq<int>, run: seq<Step> :: Reset(c, mm) && s < Reach(c, mm, run).waited ==>
      ReadsFinished(c, y, Reach(c, mm, run), c.Start(s), c.Start(s + 1))
  }

  /** Every tile element in the slice from tile boundary a to tile boundary b is in a finished tile. */
  ghost predicate ReadsFinished(c: Config, y: Layout, st: State, a: nat, b: nat)
    requires y.Valid() && |st.wg| == |c.ra| && Shape(c, st)
  {
    forall l: nat, i: nat, j: nat ::
      l < |c.ra| && c.ra[l] >= 0 && InTile(y, i, j) && InSlice(y, a, b, c.ra[l], i, j) ==> Finished(c, st, l)
  }

  /** Element (i, j) of packed tile p lies in [a * tm * tn, b * tm * tn). */
  predicate InSlice(y: Layout, a: nat, b: nat, p: nat, i: nat, j: nat)
    requires y.cols > 0
  {
    a * y.TileElems() <= y.Address(p, i, j) < b * y.TileElems()
  }

  ghost predicate Finished(c: Config, st: State, l: nat)
    requires Shape(c, st) && l < |c.ra|
  {
    forall w :: 0 <= w < c.arrivals ==> st.wg[l][w] != Working
  }

  lemma PassedTilesFinished(c: Config, st: State, s: nat, l: nat)
    requires c.Valid() && Inv(c, st) && s < st.waited && l < |c.ra| && c.ra[l] < c.Start(s + 1)
    ensures Finished(c, st, l)
  {
    var t := SegmentOf(c.cSeg, c.ra[l]);
    SegmentOfUnique(c, c.ra[l], t);
    if t > s {
      SumPrefixMonotone(c.cSeg, s + 1, t);
    }
    WaitImpliesArrived(c, st, t, l);
  }

  /** A segment end that cuts the packed output between tiles, or after which no tile follows. */
  predicate CleanEnd(c: Config, y: Layout, s: nat)
    requires y.cols > 0 && s < |c.cSeg|
  {
    Aligned(y, c.Start(s + 1)) || c.Start(s + 1) == |c.ra|
  }

  lemma AlignedIsSafe(c: Config, y: Layout, s: nat)
    requires c.Valid() && y.Valid() && s < |c.cSeg| && CleanEnd(c, y, s)
    ensures CollectiveReadsFinishedTiles(c, y, s)
  {
    var a, b := c.Start(s), c.Start(s + 1);
    forall mm: seq<int>, run: seq<Step> | Reset(c, mm) && s < Reach(c, mm, run).waited
      ensures ReadsFinished(c, y, Reach(c, mm, run), a, b)
    {
      var st := Reach(c, mm, run);
      forall l: nat, i: nat, j: nat
        | l < |c.ra| && c.ra[l] >= 0 && InTile(y, i, j) && InSlice(y, a, b, c.ra[l], i, j)
        ensures Finished(c, st, l)
      {
        if Aligned(y, b) {
          AlignedBoundary(y, b, c.ra[l], i, j);
        }
        PassedTilesFinished(c, st, s, l);
      }
    }
  }

  ghost predicate Untouched(c: Config, st: State, b: nat)
    requires |st.wg| == |c.ra|
  {
    forall l :: 0 <= l < |c.ra| && c.ra[l] >= b ==> forall w :: 0 <= w < |st.wg[l]| ==> st.wg[l][w] == Working
  }

  lemma ExecConcat(c: Config, st: State, step: Step, run: seq<Step>)
    requires c.Valid() && Inv(c, st) && Inv(c, Apply(c, st, step))
    ensures Exec(c, st, [step] + run) == Exec(c, Apply(c, st, step), run)
  {
    assert ([step] + run)[1..] == run;
  }

  /** The stream can get past the wait on s while no tile of a later segment has started. */
  lemma {:induction false} StreamRunsAhead(c: Config, st: State, s: nat) returns (run: seq<Step>)
    requires c.Valid() && Inv(c, st) && s < |c.cSeg| && st.waited <= s + 1
    requires Untouched(c, st, c.Start(s + 1))
    ensures Exec(c, st, run).waited == s + 1 && Untouched(c, Exec(c, st, run), c.Start(s + 1))
    decreases Work(c, st)
  {
    if st.waited == s + 1 {
      return [];
    }
    var step := EarlyStep(c, st, s);
    StepWorks(c, st, step);
    ApplyInv(c, st, step);
    var st' := Apply(c, st, step);
    var rest := StreamRunsAhead(c, st', s);
    run := [step] + rest;
    ExecConcat(c, st, step, rest);
  }

  lemma EarlyStep(c: Config, st: State, s: nat) returns (step: Step)
    requires c.Valid() && Inv(c, st) && s < |c.cSeg| && st.waited <= s
    requires Untouched(c, st, c.Start(s + 1))
    ensures Apply(c, st, step) != st
    ensures |Apply(c, st, step).wg| == |c.ra| && Untouched(c, Apply(c, st, step), c.Start(s + 1))
    ensures Apply(c, st, step).waited <= s + 1
  {
    if l, w :| 0 <= l < |st.wg| && 0 <= w < |st.wg[l]| && c.ra[l] < c.Start(s + 1) &&
               !st.wg[l][w].Passed? && !st.wg[l][w].Done? {
      step := Warp(l, w);
      assert Apply(c, st, step).wg[l][w] != st.wg[l][w];
    } else {
      step := Poll;
      var t := st.waited;
      SumPrefixMonotone(c.cSeg, t + 1, s + 1);
      forall l | 0 <= l < |st.wg| && InSegment(c, t, c.ra[l]) ensures HasSignalled(st.wg[l]) {
        var row := st.wg[l];
        assert RowInv(c, row, st.mm[c.DoneAt(c.ra[l])]);
        ArrivedBound(row);
        var v :| 0 <= v < |row| && row[v].Last();
        assert row[v].Signalled();
      }
      SignalledBound(c, st.wg, t);
      assert SegmentInv(c, st, t);
    }
  }

  // ---------- one collective ----------

  /** Row i of packed tile p lies in the slice, in units of tn elements. */
  predicate StripInSlice(y: Layout, a: nat, b: nat, p: nat, i: nat)
    requires y.cols > 0
  {
    a * y.tm <= Strip(y, p, i) < b * y.tm
  }

  lemma SliceByStrips(y: Layout, a: nat, b: nat, p: nat, i: nat, j: nat)
    requires y.Valid() && InTile(y, i, j)
    ensures InSlice(y, a, b, p, i, j) <==> StripInSlice(y, a, b, p, i)
  {
    AddressForm(y, p, i, j);
    BoundaryStrips(a, y.tm, y.tn);
    BoundaryStrips(b, y.tm, y.tn);
    ScaleCompare(Strip(y, p, i), j, a * y.tm, y.tn);
    ScaleCompare(Strip(y, p, i), j, b * y.tm, y.tn);
  }

  lemma BoundaryStrips(b: nat, tm: nat, tn: nat)
    ensures b * (tm * tn) == b * tm * tn
  {
    MulAssoc(b, tn, tm);
  }

  /** The slice of segment s holds a row of a tile that comes after the segment. */
  ghost predicate ReachesAhead(c: Config, y: Layout, s: nat)
    requires y.cols > 0 && s < |c.cSeg|
  {
    var a, b := c.Start(s), c.Start(s + 1);
    exists p: nat, i: nat :: b <= p < |c.ra| && i < y.tm && StripInSlice(y, a, b, p, i)
  }

  lemma AheadRaces(c: Config, y: Layout, s: nat, p: nat, i: nat)
    requires c.Valid() && y.Valid() && s < |c.cSeg|
    requires c.Start(s + 1) <= p < |c.ra| && i < y.tm && StripInSlice(y, c.Start(s), c.Start(s + 1), p, i)
    ensures !CollectiveReadsFinishedTiles(c, y, s)
  {
    var mm := seq(c.MemorySize(), i => 0);
    InitInv(c, mm);
    var run := StreamRunsAhead(c, Init(c, mm), s);
    var st := Reach(c, mm, run);
    var l := PermutationReaches(c.ra, p);
    SliceByStrips(y, c.Start(s), c.Start(s + 1), p, i, 0);
    assert InTile(y, i, 0);
    assert st.wg[l][0] == Working;
    assert !Finished(c, st, l);
    assert !ReadsFinished(c, y, st, c.Start(s), c.Start(s + 1));
  }

  /** Exactly when collective s is race-free: no row of a later tile lies in its slice. */
  lemma SliceSafety(c: Config, y: Layout, s: nat)
    requires c.Valid() && y.Valid() && s < |c.cSeg|
    ensures CollectiveReadsFinishedTiles(c, y, s) <==> !ReachesAhead(c, y, s)
  {
    var a, b := c.Start(s), c.Start(s + 1);
    if ReachesAhead(c, y, s) {
      var p: nat, i: nat :| b <= p < |c.ra| && i < y.tm && StripInSlice(y, a, b, p, i);
      AheadRaces(c, y, s, p, i);
    } else {
      forall mm: seq<int>, run: seq<Step> | Reset(c, mm) && s < Reach(c, mm, run).waited
        ensures ReadsFinished(c, y, Reach(c, mm, run), a, b)
      {
        var st := Reach(c, mm, run);
        forall l: nat, i: nat, j: nat
          | l < |c.ra| && c.ra[l] >= 0 && InTile(y, i, j) && InSlice(y, a, b, c.ra[l], i, j)
          ensures Finished(c, st, l)
        {
          SliceByStrips(y, a, b, c.ra[l], i, j);
          PassedTilesFinished(c, st, s, l);
        }
      }
    }
  }

  // ---------- the whole launch ----------

  /** Some segment up to s has the strip in its slice. */
  lemma {:induction false} SliceOfStrip(c: Config, y: Layout, s: nat, x: nat) returns (t: nat)
    requires s < |c.cSeg| && x < c.Start(s + 1) * y.tm
    ensures t <= s && c.Start(t) * y.tm <= x < c.Start(t + 1) * y.tm
  {
    t := s;
    if x < c.Start(s) * y.tm {
      t := SliceOfStrip(c, y, s - 1, x);
    }
  }

  /** At an end that is not clean, the first row of the next tile is in the slice of some segment that
      is already being waited for. */
  lemma UncleanReachesAhead(c: Config, y: Layout, s: nat) returns (t: nat)
    requires c.Valid() && y.Valid() && s < |c.cSeg| && !CleanEnd(c, y, s)
    ensures t <= s && ReachesAhead(c, y, t)
  {
    var b := c.Start(s + 1);
    SumPrefixAll(c.cSeg, s + 1);
    MisalignedBoundary(y, b);
    AddressForm(y, b, 0, 0);
    BoundaryStrips(b, y.tm, y.tn);
    ScaleCompare(Strip(y, b, 0), 0, b * y.tm, y.tn);
    t := SliceOfStrip(c, y, s, Strip(y, b, 0));
    SumPrefixMonotone(c.cSeg, t + 1, s + 1);
    assert StripInSlice(y, c.Start(t), c.Start(t + 1), b, 0);
  }

  /** The overlap is race-free up to and including collective n - 1 exactly when each of these segments
      ends on a packed-row boundary (always so for a packed width of one tile), or tiles are one row
      high, or no tile follows.  For n = |cSeg| this is the whole launch. */
  lemma OverlapSafety(c: Config, y: Layout, n: nat)
    requires c.Valid() && y.Valid() && n <= |c.cSeg|
    ensures (forall s: nat :: s < n ==> CollectiveReadsFinishedTiles(c, y, s)) <==>
            (forall s: nat :: s < n ==> CleanEnd(c, y, s))
  {
    forall s: nat | s < n && CleanEnd(c, y, s) ensures CollectiveReadsFinishedTiles(c, y, s) {
      AlignedIsSafe(c, y, s);
    }
    if s: nat :| s < n && !CleanEnd(c, y, s) {
      var t := UncleanReachesAhead(c, y, s);
      SliceSafety(c, y, t);
    }
  }

  /** A launch that fails: two tiles of two rows side by side, one segment each.  The first collective is
      given the first packed row, half of which is the second tile's. */
  lemma SideBySideRaces(tn: nat)
    requires tn > 0
    ensures Config([1, 1], [0, 1], 1, false).Valid()
    ensures !CollectiveReadsFinishedTiles(Config([1, 1], [0, 1], 1, false), Layout(2, tn, 2), 0)
  {
    var c, y := Config([1, 1], [0, 1], 1, false), Layout(2, tn, 2);
    assert c.cSeg[..0] == [] && c.cSeg[..1] == [1];
    assert Sum([1]) == 1 + Sum([]) && Sum([1, 1]) == 1 + Sum([1, 1][1..]) && [1, 1][1..] == [1];
    assert Strip(y, 1, 0) == 1;
    AheadRaces(c, y, 0, 1, 0);
  }

  /** One collective can be safe although its own segment ends inside a packed row: here the slice of
      segment 1 holds no row of any tile, and the race is in the slice of segment 0. */
  lemma SafeAtUncleanEnd()
    ensures var c, y := Config([3, 1, 1], [0, 1, 2, 3, 4], 1, false), Layout(2, 1, 8);
            && c.Valid() && !CleanEnd(c, y, 1)
            && CollectiveReadsFinishedTiles(c, y, 1) && !CollectiveReadsFinishedTiles(c, y, 0)
  {
    var c, y := Config([3, 1, 1], [0, 1, 2, 3, 4], 1, false), Layout(2, 1, 8);
    FiveTiles(c);
    forall p: nat, i: nat | c.Start(2) <= p < 5 && i < 2 ensures !StripInSlice(y, c.Start(1), c.Start(2), p, i) {
      assert Strip(y, p, i) == i * 8 + p;
    }
    SliceSafety(c, y, 1);
    assert Strip(y, 3, 0) == 3;
    AheadRaces(c, y, 0, 3, 0);
  }

  lemma FiveTiles(c: Config)
    requires c == Config([3, 1, 1], [0, 1, 2, 3, 4], 1, false)
    ensures c.Valid() && c.Start(0) == 0 && c.Start(1) == 3 && c.Start(2) == 4
  {
    SumSnoc(c.cSeg, 0);
    SumSnoc(c.cSeg, 1);
    SumSnoc(c.cSeg, 2);
    assert c.cSeg[..0] == [] && c.cSeg[..3] == c.cSeg;
  }

  /** The width the tuner always uses: one packed tile per row. */
  lemma SingleColumnIsSafe(c: Config, y: Layout, s: nat)
    requires c.Valid() && y.Valid() && s < |c.cSeg| && y.cols == 1
    ensures CollectiveReadsFinishedTiles(c, y, s)
    ensures forall l: nat, i: nat, j: nat :: l < |c.ra| && c.ra[l] >= 0 && InTile(y, i, j) ==>
              (InSegment(c, s, c.ra[l]) <==>
               c.Start(s) * y.TileElems() <= y.Address(c.ra[l], i, j) < c.Start(s + 1) * y.TileElems())
  {
    AlignedIsSafe(c, y, s);
    forall l: nat, i: nat, j: nat | l < |c.ra| && c.ra[l] >= 0 && InTile(y, i, j)
      ensures InSegment(c, s, c.ra[l]) <==>
              c.Start(s) * y.TileElems() <= y.Address(c.ra[l], i, j) < c.Start(s + 1) * y.TileElems()
    {
      AlignedBoundary(y, c.Start(s), c.ra[l], i, j);
      AlignedBoundary(y, c.Start(s + 1), c.ra[l], i, j);
    }
  }
}
