/** Safety, conservation and liveness of the tile signalling over whole runs. */
module TileSignalRuns {
  import opened Sequences
  import opened TileSignal

  /** MM as the host leaves it: counters zero; the monitor output may hold anything. */
  ghost predicate Reset(c: Config, mm: seq<int>) {
    && |mm| >= |c.cSeg| + |c.ra| && (forall i :: 0 <= i < |c.cSeg| + |c.ra| ==> mm[i] == 0)
    && (c.monitor ==> |mm| >= |c.cSeg| + 2 * |c.ra| + 1 && mm[|c.cSeg| + |c.ra|] == 0)
  }

  function Init(c: Config, mm: seq<int>): State {
    State(mm, seq(|c.ra|, l => seq(c.arrivals, w => Working)), 0)
  }

  lemma InitInv(c: Config, mm: seq<int>)
    requires c.Valid() && Reset(c, mm)
    ensures Inv(c, Init(c, mm))
  {
    var st := Init(c, mm);
    forall l | 0 <= l < |st.wg| ensures RowInv(c, st.wg[l], st.mm[c.DoneAt(c.ra[l])]) {
      assert Arrived(st.wg[l]) == {};
    }
    forall s | 0 <= s < |c.cSeg| ensures SegmentInv(c, st, s) {
      assert SignalledIn(c, st.wg, s) == {};
    }
  }

  /** The state after a run: any list of steps, taken in order. */
  function Exec(c: Config, st: State, run: seq<Step>): (r: State)
    requires c.Valid() && Inv(c, st)
    ensures Inv(c, r) && st.waited <= r.waited
    decreases |run|
  {
    if run == [] then st
    else
      ApplyInv(c, st, run[0]);
      Exec(c, Apply(c, st, run[0]), run[1..])
  }

  function Reach(c: Config, mm: seq<int>, run: seq<Step>): (r: State)
    requires c.Valid() && Reset(c, mm)
    ensures Inv(c, r)
  {
    InitInv(c, mm);
    Exec(c, Init(c, mm), run)
  }

  // ---------- safety ----------

  /** The stream is past the wait on s only if every warp group of every tile of s has arrived. */
  lemma WaitImpliesArrived(c: Config, st: State, s: nat, l: nat)
    requires c.Valid() && Inv(c, st)
    requires s < st.waited && l < |c.ra| && InSegment(c, s, c.ra[l])
    ensures forall w :: 0 <= w < c.arrivals ==> st.wg[l][w] != Working
  {
    assert SegmentInv(c, st, s);
    SignalledBound(c, st.wg, s);
    var row := st.wg[l];
    assert RowInv(c, row, st.mm[c.DoneAt(c.ra[l])]);
    var v :| 0 <= v < |row| && row[v].Signalled();
    assert row[v].Last();
    ArrivedBound(row);
  }

  lemma WaitIsSafe(c: Config, mm: seq<int>, run: seq<Step>, s: nat, l: nat, w: nat)
    requires c.Valid() && Reset(c, mm)
    requires s < Reach(c, mm, run).waited && l < |c.ra| && w < c.arrivals
    requires Sum(c.cSeg[..s]) <= c.ra[l] < Sum(c.cSeg[..s + 1])
    ensures Reach(c, mm, run).wg[l][w] != Working
  {
    WaitImpliesArrived(c, Reach(c, mm, run), s, l);
  }

  /** A segment counter never exceeds its target, so the equality test of the CAS is enough. */
  lemma CounterBound(c: Config, st: State, s: nat)
    requires c.Valid() && Inv(c, st) && s < |c.cSeg|
    ensures 0 <= st.mm[s] <= c.cSeg[s]
  {
    assert SegmentInv(c, st, s);
    SignalledBound(c, st.wg, s);
  }

  /** No lost wakeup: a full counter stays full until the waiter of that segment takes it. */
  lemma {:induction false} FullCounterStays(c: Config, st: State, run: seq<Step>, s: nat)
    requires c.Valid() && Inv(c, st) && st.waited <= s < |c.cSeg| && st.mm[s] == c.cSeg[s]
    ensures var r := Exec(c, st, run);
            if r.waited <= s then r.mm[s] == c.cSeg[s] else r.mm[s] == 0
    decreases |run|
  {
    if run != [] {
      var st' := Apply(c, st, run[0]);
      ApplyInv(c, st, run[0]);
      if st'.waited <= s {
        FullStep(c, st, run[0], s);
        FullCounterStays(c, st', run[1..], s);
      } else {
        assert SegmentInv(c, Exec(c, st, run), s);
      }
    } else {
      assert SegmentInv(c, st, s);
    }
  }

  lemma FullStep(c: Config, st: State, step: Step, s: nat)
    requires c.Valid() && Inv(c, st) && Inv(c, Apply(c, st, step))
    requires s < |c.cSeg| && st.mm[s] == c.cSeg[s]
    requires st.waited <= s && Apply(c, st, step).waited <= s
    ensures Apply(c, st, step).mm[s] == c.cSeg[s]
  {
    var st' := Apply(c, st, step);
    CounterBound(c, st', s);
    if step.Warp? && step.tile < |st.wg| && step.group < c.arrivals {
      WarpFrame(c, st, step.tile, step.group);
    }
  }

  // ---------- conservation ----------

  ghost function Complete(c: Config, st: State): set<int>
    requires Inv(c, st)
  {
    set l | 0 <= l < |st.wg| && st.mm[c.DoneAt(c.ra[l])] == c.arrivals
  }

  /** Complete tiles whose last warp group has not bumped the segment counter yet. */
  ghost function Pending(st: State): set<int> {
    set l | 0 <= l < |st.wg| && exists w :: 0 <= w < |st.wg[l]| && st.wg[l][w] == Signal
  }

  ghost function SignalledBefore(c: Config, wg: seq<seq<Pc>>, k: nat): set<int>
    requires k <= |c.cSeg| && |wg| == |c.ra|
  {
    set l | 0 <= l < |wg| && c.ra[l] < c.Start(k) && HasSignalled(wg[l])
  }

  lemma {:induction false} SegmentsAddUp(c: Config, st: State, k: nat)
    requires c.Valid() && Inv(c, st) && k <= |c.cSeg|
    ensures |SignalledBefore(c, st.wg, k)| ==
            Sum(st.mm[..k]) + Sum(c.cSeg[..if k <= st.waited then k else st.waited])
  {
    if k == 0 {
      assert SignalledBefore(c, st.wg, 0) == {};
    } else {
      SegmentsAddUp(c, st, k - 1);
      assert SegmentInv(c, st, k - 1);
      SegmentsAddUpStep(c, st, k - 1);
    }
  }

  lemma SegmentsAddUpStep(c: Config, st: State, k: nat)
    requires Shape(c, st) && k < |c.cSeg| && SegmentInv(c, st, k)
    requires |SignalledBefore(c, st.wg, k)| ==
             Sum(st.mm[..k]) + Sum(c.cSeg[..if k <= st.waited then k else st.waited])
    ensures |SignalledBefore(c, st.wg, k + 1)| ==
            Sum(st.mm[..k + 1]) + Sum(c.cSeg[..if k + 1 <= st.waited then k + 1 else st.waited])
  {
    SumSnoc(st.mm, k);
    SumSnoc(c.cSeg, k);
    SignalledSplit(c, st.wg, k);
  }

  lemma SignalledSplit(c: Config, wg: seq<seq<Pc>>, k: nat)
    requires k < |c.cSeg| && |wg| == |c.ra|
    ensures |SignalledBefore(c, wg, k + 1)| == |SignalledBefore(c, wg, k)| + |SignalledIn(c, wg, k)|
  {
    SumSnoc(c.cSeg, k);
    var lo, hi := c.Start(k), c.Start(k + 1);
    assert lo <= hi;
    var a, b := SignalledBefore(c, wg, k), SignalledIn(c, wg, k);
    var ab := SignalledBefore(c, wg, k + 1);
    forall l ensures l in ab <==> l in a || l in b {
      if 0 <= l < |wg| {
        assert c.ra[l] < hi <==> c.ra[l] < lo || lo <= c.ra[l] < hi;
      }
    }
    assert ab == a + b;
    assert a !! b;
  }

  /** Signals in the counters, signals still to come and signals already consumed add up
      to the complete tiles, in every reachable state. */
  lemma Conservation(c: Config, mm: seq<int>, run: seq<Step>)
    requires c.Valid() && Reset(c, mm)
    ensures var st := Reach(c, mm, run);
            Sum(st.mm[..|c.cSeg|]) + |Pending(st)| + Sum(c.cSeg[..st.waited]) == |Complete(c, st)|
  {
    var st := Reach(c, mm, run);
    var n := |c.cSeg|;
    SegmentsAddUp(c, st, n);
    assert c.cSeg[..n] == c.cSeg;
    var signalled := SignalledBefore(c, st.wg, n);
    forall l | 0 <= l < |st.wg|
      ensures l in Complete(c, st) <==> l in signalled || l in Pending(st)
      ensures !(l in signalled && l in Pending(st))
    {
      RowPhases(c, st, l);
    }
    assert Complete(c, st) == signalled + Pending(st);
    assert signalled !! Pending(st);
  }

  lemma RowPhases(c: Config, st: State, l: nat)
    requires c.Valid() && Inv(c, st) && l < |st.wg|
    ensures l in Complete(c, st) <==> HasSignalled(st.wg[l]) || l in Pending(st)
    ensures !(HasSignalled(st.wg[l]) && l in Pending(st))
  {
  }

  // ---------- liveness ----------

  ghost predicate WarpsFinished(st: State) {
    forall l, w :: 0 <= l < |st.wg| && 0 <= w < |st.wg[l]| ==> st.wg[l][w].Passed? || st.wg[l][w].Done?
  }

  ghost predicate Final(c: Config, st: State) {
    WarpsFinished(st) && st.waited == |c.cSeg|
  }

  function Rank(pc: Pc): nat {
    match pc
    case Working => 4 case Signal => 3 case Count => 2 case Store(_) => 1 case _ => 0
  }

  function RowRank(row: seq<Pc>): nat {
    if row == [] then 0 else Rank(row[0]) + RowRank(row[1..])
  }

  function TotalRank(wg: seq<seq<Pc>>): nat {
    if wg == [] then 0 else RowRank(wg[0]) + TotalRank(wg[1..])
  }

  lemma {:induction false} RowRankUpdate(row: seq<Pc>, w: nat, pc: Pc)
    requires w < |row|
    ensures RowRank(row[w := pc]) + Rank(row[w]) == RowRank(row) + Rank(pc)
  {
    if w == 0 {
      assert row[w := pc][1..] == row[1..];
    } else {
      assert row[w := pc][1..] == row[1..][w - 1 := pc];
      RowRankUpdate(row[1..], w - 1, pc);
    }
  }

  lemma {:induction false} TotalRankUpdate(wg: seq<seq<Pc>>, l: nat, row: seq<Pc>)
    requires l < |wg|
    ensures TotalRank(wg[l := row]) + RowRank(wg[l]) == TotalRank(wg) + RowRank(row)
  {
    if l == 0 {
      assert wg[l := row][1..] == wg[1..];
    } else {
      assert wg[l := row][1..] == wg[1..][l - 1 := row];
      TotalRankUpdate(wg[1..], l - 1, row);
    }
  }

  function Work(c: Config, st: State): nat
    requires st.waited <= |c.cSeg|
  {
    TotalRank(st.wg) + |c.cSeg| - st.waited
  }

  /** Every step that changes anything uses up work. */
  lemma StepWorks(c: Config, st: State, step: Step)
    requires c.Valid() && Inv(c, st)
    ensures var st' := Apply(c, st, step);
            st'.waited <= |c.cSeg| && (st' == st || Work(c, st') < Work(c, st))
  {
    ApplyInv(c, st, step);
    if step.Warp? && step.tile < |st.wg| && step.group < c.arrivals {
      var l, w := step.tile, step.group;
      var row := st.wg[l];
      var pc' := WarpStep(c, st.mm, row[w], c.ra[l]).1;
      RowRankUpdate(row, w, pc');
      TotalRankUpdate(st.wg, l, row[w := pc']);
      if row[w].Passed? || row[w].Done? {
        assert row[w := pc'] == row && st.wg[l := row] == st.wg;
      }
    }
  }

  /** Deadlock freedom: unless the run is over, some step changes the state. */
  lemma SomeStepEnabled(c: Config, st: State) returns (step: Step)
    requires c.Valid() && Inv(c, st) && !Final(c, st)
    ensures step == Poll || (step.Warp? && step.tile < |c.ra| && step.group < c.arrivals)
    ensures Apply(c, st, step) != st
  {
    if WarpsFinished(st) {
      var s := st.waited;
      forall l | 0 <= l < |st.wg| ensures HasSignalled(st.wg[l]) {
        var row := st.wg[l];
        assert RowInv(c, row, st.mm[c.DoneAt(c.ra[l])]);
        ArrivedBound(row);
        var v :| 0 <= v < |row| && row[v].Last();
        assert row[v].Signalled();
      }
      SignalledBound(c, st.wg, s);
      assert SegmentInv(c, st, s);
      step := Poll;
    } else {
      var l, w :| 0 <= l < |st.wg| && 0 <= w < |st.wg[l]| && !st.wg[l][w].Passed? && !st.wg[l][w].Done?;
      step := Warp(l, w);
      assert Apply(c, st, step).wg[l][w] != st.wg[l][w];
    }
  }

  /** A round in which every warp group and the stream get at least one turn, in any order. */
  ghost predicate Fair(c: Config, round: seq<Step>) {
    && Poll in round
    && forall l, w :: 0 <= l < |c.ra| && 0 <= w < c.arrivals ==> Warp(l, w) in round
  }

  lemma {:induction false} RoundWorks(c: Config, st: State, round: seq<Step>)
    requires c.Valid() && Inv(c, st)
    ensures Work(c, Exec(c, st, round)) <= Work(c, st)
    ensures (exists step :: step in round && Apply(c, st, step) != st) ==>
              Work(c, Exec(c, st, round)) < Work(c, st)
    decreases |round|
  {
    if round != [] {
      StepWorks(c, st, round[0]);
      ApplyInv(c, st, round[0]);
      RoundWorks(c, Apply(c, st, round[0]), round[1..]);
    }
  }

  ghost function ExecRounds(c: Config, st: State, rounds: seq<seq<Step>>): (r: State)
    requires c.Valid() && Inv(c, st)
    ensures Inv(c, r)
    decreases |rounds|
  {
    if rounds == [] then st else ExecRounds(c, Exec(c, st, rounds[0]), rounds[1..])
  }

  lemma {:induction false} FinalStays(c: Config, st: State, run: seq<Step>)
    requires c.Valid() && Inv(c, st) && Final(c, st)
    ensures Exec(c, st, run) == st
    decreases |run|
  {
    if run != [] {
      var step := run[0];
      if step.Warp? && step.tile < |st.wg| && step.group < c.arrivals {
        var row := st.wg[step.tile];
        assert row[step.group := row[step.group]] == row;
        assert st.wg[step.tile := row] == st.wg;
      }
      ApplyInv(c, st, step);
      FinalStays(c, st, run[1..]);
    }
  }

  /** Liveness: after as many fair rounds as there is work, every interleaving has finished:
      all warp groups are done and the stream has passed every wait. */
  lemma {:induction false} FairRunsFinish(c: Config, st: State, rounds: seq<seq<Step>>)
    requires c.Valid() && Inv(c, st)
    requires forall i :: 0 <= i < |rounds| ==> Fair(c, rounds[i])
    requires |rounds| >= Work(c, st)
    ensures Final(c, ExecRounds(c, st, rounds))
    decreases |rounds|
  {
    if rounds == [] {
      if !Final(c, st) {
        var step := SomeStepEnabled(c, st);
        StepWorks(c, st, step);
      }
    } else {
      var st' := Exec(c, st, rounds[0]);
      if Final(c, st) {
        FinalStays(c, st, rounds[0]);
        FairFinal(c, st', rounds[1..]);
      } else {
        var step := SomeStepEnabled(c, st);
        assert Fair(c, rounds[0]);
        assert step in rounds[0];
        RoundWorks(c, st, rounds[0]);
        FairRunsFinish(c, st', rounds[1..]);
      }
    }
  }

  lemma {:induction false} FairFinal(c: Config, st: State, rounds: seq<seq<Step>>)
    requires c.Valid() && Inv(c, st) && Final(c, st)
    ensures Final(c, ExecRounds(c, st, rounds))
    decreases |rounds|
  {
    if rounds != [] {
      FinalStays(c, st, rounds[0]);
      FairFinal(c, st, rounds[1..]);
    }
  }

  /** The totals a finished run leaves: every tile counter at its target, every segment counter
      full when its wait has not run and zero when it has, exactly one signaller per tile. */
  lemma FinalTotals(c: Config, st: State)
    requires c.Valid() && Inv(c, st) && WarpsFinished(st)
    ensures forall at :: |c.cSeg| <= at < |c.cSeg| + |c.ra| ==> st.mm[at] == c.arrivals
    ensures forall s :: 0 <= s < |c.cSeg| ==> st.mm[s] == if s < st.waited then 0 else c.cSeg[s]
    ensures forall l :: 0 <= l < |c.ra| ==> Done in st.wg[l]
    ensures forall l, w, v :: 0 <= l < |c.ra| && 0 <= w < v < c.arrivals ==>
              !(st.wg[l][w] == Done && st.wg[l][v] == Done)
    ensures st.waited == 0 ==> Sum(st.mm[..|c.cSeg|]) == |c.ra|
  {
    forall l | 0 <= l < |st.wg|
      ensures st.mm[c.DoneAt(c.ra[l])] == c.arrivals && HasSignalled(st.wg[l])
      ensures Done in st.wg[l]
      ensures forall w, v :: 0 <= w < v < c.arrivals ==> !(st.wg[l][w] == Done && st.wg[l][v] == Done)
    {
      var row := st.wg[l];
      assert RowInv(c, row, st.mm[c.DoneAt(c.ra[l])]);
      ArrivedBound(row);
      var v :| 0 <= v < |row| && row[v].Last();
      assert row[v] == Done && row[v].Signalled();
      assert forall u :: 0 <= u < |row| && row[u] == Done ==> row[u].Last();
    }
    forall at | |c.cSeg| <= at < |c.cSeg| + |c.ra| ensures st.mm[at] == c.arrivals {
      var l := PermutationReaches(c.ra, at - |c.cSeg|);
    }
    forall s | 0 <= s < |c.cSeg| ensures st.mm[s] == if s < st.waited then 0 else c.cSeg[s] {
      assert SegmentInv(c, st, s);
      SignalledBound(c, st.wg, s);
    }
    if st.waited == 0 {
      assert st.mm[..|c.cSeg|] == c.cSeg;
    }
  }
}
