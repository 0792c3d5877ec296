/** The completion order that a monitored run records. */
module TileMonitor {
  import opened Sequences
  import opened TileSignal
  import opened TileSignalRuns

  ghost predicate HasNumber(row: seq<Pc>) {
    exists w :: 0 <= w < |row| && row[w].Numbered()
  }

  ghost function NumberedTiles(wg: seq<seq<Pc>>): set<int> {
    set l | 0 <= l < |wg| && HasNumber(wg[l])
  }

  /** The order a warp group took: still in its register, or already in MM. */
  function Number(c: Config, mm: seq<int>, pc: Pc, tile: nat): int
    requires |mm| >= c.MemorySize() && c.monitor && tile < |c.ra|
  {
    if pc.Store? then pc.order else mm[c.OrderAt(tile)]
  }

  ghost predicate NumberInRange(c: Config, st: State, l: nat, w: nat)
    requires Inv(c, st) && c.monitor && l < |st.wg| && w < c.arrivals
  {
    st.wg[l][w].Numbered() ==> 0 <= Number(c, st.mm, st.wg[l][w], c.ra[l]) < st.mm[c.CounterAt()]
  }

  ghost predicate NumbersDiffer(c: Config, st: State, l: nat, w: nat, k: nat, v: nat)
    requires Inv(c, st) && c.monitor && l < |st.wg| && w < c.arrivals && k < |st.wg| && v < c.arrivals
  {
    st.wg[l][w].Numbered() && st.wg[k][v].Numbered() ==>
      Number(c, st.mm, st.wg[l][w], c.ra[l]) != Number(c, st.mm, st.wg[k][v], c.ra[k])
  }

  /** The counter is the number of numbered tiles; their numbers are below it and distinct. */
  ghost predicate MonitorInv(c: Config, st: State)
    requires Inv(c, st) && c.monitor
  {
    && st.mm[c.CounterAt()] == |NumberedTiles(st.wg)|
    && (forall l, w :: 0 <= l < |st.wg| && 0 <= w < c.arrivals ==> NumberInRange(c, st, l, w))
    && (forall l, w, k, v :: 0 <= l < k < |st.wg| && 0 <= w < c.arrivals && 0 <= v < c.arrivals ==>
          NumbersDiffer(c, st, l, w, k, v))
  }

  /** Taking an order numbers one more tile; no other step changes which tiles are numbered. */
  lemma NumberedStep(c: Config, st: State, l: nat, w: nat)
    requires c.Valid() && Inv(c, st) && c.monitor && l < |st.wg| && w < c.arrivals
    ensures var st' := Apply(c, st, Warp(l, w));
            |NumberedTiles(st'.wg)| == |NumberedTiles(st.wg)| + if st.wg[l][w].Count? then 1 else 0
  {
    var row := st.wg[l];
    var pc' := WarpStep(c, st.mm, row[w], c.ra[l]).1;
    assert RowInv(c, row, st.mm[c.DoneAt(c.ra[l])]);
    RowNumber(c, row, w, pc', st.mm[c.DoneAt(c.ra[l])]);
    NumberedUpdate(st.wg, l, row[w := pc']);
  }

  lemma NumberedUpdate(wg: seq<seq<Pc>>, l: nat, row: seq<Pc>)
    requires l < |wg| && (HasNumber(wg[l]) ==> HasNumber(row))
    ensures |NumberedTiles(wg[l := row])| ==
            |NumberedTiles(wg)| + if HasNumber(row) && !HasNumber(wg[l]) then 1 else 0
  {
    var a, b := NumberedTiles(wg), NumberedTiles(wg[l := row]);
    forall k ensures k != l ==> (k in a <==> k in b) {
      assert 0 <= k < |wg| && k != l ==> wg[l := row][k] == wg[k];
    }
    assert l in a <==> HasNumber(wg[l]);
    assert l in b <==> HasNumber(row);
    if HasNumber(row) && !HasNumber(wg[l]) {
      assert b == a + {l};
    } else {
      assert b == a;
    }
  }

  lemma RowNumber(c: Config, row: seq<Pc>, w: nat, pc': Pc, done: int)
    requires w < |row| && RowInv(c, row, done)
    requires row[w].Count? || (pc'.Numbered() <==> row[w].Numbered())
    ensures row[w].Count? ==> !HasNumber(row)
    ensures pc'.Numbered() ==> HasNumber(row[w := pc'])
    ensures (pc'.Numbered() <==> row[w].Numbered()) ==> (HasNumber(row[w := pc']) <==> HasNumber(row))
  {
    var row' := row[w := pc'];
    assert forall v :: 0 <= v < |row| && v != w ==> row'[v] == row[v];
    if pc'.Numbered() {
      assert row'[w].Numbered();
    }
    assert forall v :: 0 <= v < |row| && row[v].Numbered() ==> row[v].Last();
    if pc'.Numbered() <==> row[w].Numbered() {
      assert forall v :: 0 <= v < |row| ==> (row'[v].Numbered() <==> row[v].Numbered());
    }
  }

  /** Numbers already taken are unchanged by any step; a new one is the old counter. */
  lemma NumberStep(c: Config, st: State, l: nat, w: nat, k: nat, v: nat)
    requires c.Valid() && Inv(c, st) && c.monitor && l < |st.wg| && w < c.arrivals
    requires k < |st.wg| && v < c.arrivals
    ensures var st' := Apply(c, st, Warp(l, w));
            && |st'.mm| == |st.mm| && |st'.wg| == |st.wg| && |st'.wg[k]| == c.arrivals
            && st'.mm[c.CounterAt()] == st.mm[c.CounterAt()] + (if st.wg[l][w].Count? then 1 else 0)
            && (st'.wg[k][v].Numbered() ==>
                  if k == l && v == w && st.wg[l][w].Count? then
                    Number(c, st'.mm, st'.wg[k][v], c.ra[k]) == st.mm[c.CounterAt()]
                  else
                    && st.wg[k][v].Numbered()
                    && Number(c, st'.mm, st'.wg[k][v], c.ra[k]) == Number(c, st.mm, st.wg[k][v], c.ra[k]))
  {
  }

  lemma MonitorWarpStep(c: Config, st: State, l: nat, w: nat)
    requires c.Valid() && Inv(c, st) && c.monitor && MonitorInv(c, st)
    requires l < |st.wg| && w < c.arrivals
    requires Inv(c, Apply(c, st, Warp(l, w)))
    ensures MonitorInv(c, Apply(c, st, Warp(l, w)))
  {
    var st' := Apply(c, st, Warp(l, w));
    NumberedStep(c, st, l, w);
    NumberStep(c, st, l, w, l, w);
    forall k, v | 0 <= k < |st'.wg| && 0 <= v < c.arrivals ensures NumberInRange(c, st', k, v) {
      assert NumberInRange(c, st, k, v);
      NumberStep(c, st, l, w, k, v);
    }
    forall i, u, k, v | 0 <= i < k < |st'.wg| && 0 <= u < c.arrivals && 0 <= v < c.arrivals
      ensures NumbersDiffer(c, st', i, u, k, v)
    {
      MonitorPair(c, st, l, w, i, u, k, v);
    }
  }

  lemma MonitorPair(c: Config, st: State, l: nat, w: nat, i: nat, u: nat, k: nat, v: nat)
    requires c.Valid() && Inv(c, st) && c.monitor && MonitorInv(c, st)
    requires l < |st.wg| && w < c.arrivals && i < k < |st.wg| && u < c.arrivals && v < c.arrivals
    requires Inv(c, Apply(c, st, Warp(l, w)))
    ensures NumbersDiffer(c, Apply(c, st, Warp(l, w)), i, u, k, v)
  {
    assert NumbersDiffer(c, st, i, u, k, v);
    assert NumberInRange(c, st, i, u) && NumberInRange(c, st, k, v);
    NumberStep(c, st, l, w, i, u);
    NumberStep(c, st, l, w, k, v);
  }

  lemma MonitorPollStep(c: Config, st: State)
    requires c.Valid() && Inv(c, st) && c.monitor && MonitorInv(c, st)
    requires Inv(c, Apply(c, st, Poll))
    ensures MonitorInv(c, Apply(c, st, Poll))
  {
    var st' := Apply(c, st, Poll);
    assert st'.wg == st.wg;
    assert forall i :: |c.cSeg| <= i < |st.mm| ==> st'.mm[i] == st.mm[i];
    forall k, v | 0 <= k < |st'.wg| && 0 <= v < c.arrivals ensures NumberInRange(c, st', k, v) {
      assert NumberInRange(c, st, k, v);
    }
    forall i, u, k, v | 0 <= i < k < |st'.wg| && 0 <= u < c.arrivals && 0 <= v < c.arrivals
      ensures NumbersDiffer(c, st', i, u, k, v)
    {
      assert NumbersDiffer(c, st, i, u, k, v);
    }
  }

  lemma MonitorStep(c: Config, st: State, step: Step)
    requires c.Valid() && Inv(c, st) && c.monitor && MonitorInv(c, st)
    ensures Inv(c, Apply(c, st, step)) && MonitorInv(c, Apply(c, st, step))
  {
    ApplyInv(c, st, step);
    match step
    case Warp(l, w) => if l < |st.wg| && w < c.arrivals { MonitorWarpStep(c, st, l, w); }
    case Poll => MonitorPollStep(c, st);
  }

  lemma {:induction false} MonitorRun(c: Config, st: State, run: seq<Step>)
    requires c.Valid() && Inv(c, st) && c.monitor && MonitorInv(c, st)
    ensures MonitorInv(c, Exec(c, st, run))
    decreases |run|
  {
    if run != [] {
      MonitorStep(c, st, run[0]);
      MonitorRun(c, Apply(c, st, run[0]), run[1..]);
    }
  }

  /** In every run in which all warp groups finished, monitor_order ranks the tiles:
      a rearrangement of 0 .. tile_num - 1. */
  lemma MonitorOrderIsPermutation(c: Config, mm: seq<int>, run: seq<Step>)
    requires c.Valid() && Reset(c, mm) && c.monitor
    requires WarpsFinished(Reach(c, mm, run))
    ensures var st := Reach(c, mm, run);
            IsPermutation(st.mm[|c.cSeg| + |c.ra| + 1..|c.cSeg| + 2 * |c.ra| + 1])
  {
    var st := Reach(c, mm, run);
    MonitorReach(c, mm, run);
    AllNumbered(c, st);
    var order := st.mm[c.OrderAt(0)..c.OrderAt(|c.ra|)];
    forall t | 0 <= t < |order| ensures 0 <= order[t] < |order| {
      var l, w := FinalNumber(c, st, t);
    }
    forall t, u | 0 <= t < u < |order| ensures order[t] != order[u] {
      FinalNumbersDiffer(c, st, t, u);
    }
  }

  lemma MonitorReach(c: Config, mm: seq<int>, run: seq<Step>)
    requires c.Valid() && Reset(c, mm) && c.monitor
    ensures MonitorInv(c, Reach(c, mm, run))
  {
    var st0 := Init(c, mm);
    InitInv(c, mm);
    assert NumberedTiles(st0.wg) == {};
    MonitorRun(c, st0, run);
  }

  lemma AllNumbered(c: Config, st: State)
    requires c.Valid() && Inv(c, st) && WarpsFinished(st)
    ensures |NumberedTiles(st.wg)| == |c.ra|
  {
    FinalTotals(c, st);
    forall l | 0 <= l < |c.ra| ensures HasNumber(st.wg[l]) {
      var w :| 0 <= w < |st.wg[l]| && st.wg[l][w] == Done;
      assert st.wg[l][w].Numbered();
    }
    assert NumberedTiles(st.wg) == Range(0, |c.ra|);
    RangeSize(0, |c.ra|);
  }

  lemma FinalNumbersDiffer(c: Config, st: State, t: nat, u: nat)
    requires c.Valid() && Inv(c, st) && c.monitor && MonitorInv(c, st) && WarpsFinished(st)
    requires t < u < |c.ra|
    ensures st.mm[c.OrderAt(t)] != st.mm[c.OrderAt(u)]
  {
    var l, w := FinalNumber(c, st, t);
    var k, v := FinalNumber(c, st, u);
    if l < k {
      assert NumbersDiffer(c, st, l, w, k, v);
    } else {
      assert NumbersDiffer(c, st, k, v, l, w);
    }
  }

  lemma FinalNumber(c: Config, st: State, t: nat) returns (l: nat, w: nat)
    requires c.Valid() && Inv(c, st) && c.monitor && MonitorInv(c, st) && WarpsFinished(st) && t < |c.ra|
    ensures l < |c.ra| && c.ra[l] == t && w < c.arrivals && st.wg[l][w] == Done
    ensures Number(c, st.mm, st.wg[l][w], t) == st.mm[c.OrderAt(t)]
    ensures 0 <= st.mm[c.OrderAt(t)] < st.mm[c.CounterAt()]
  {
    l := PermutationReaches(c.ra, t);
    FinalTotals(c, st);
    w :| 0 <= w < |st.wg[l]| && st.wg[l][w] == Done;
    assert st.wg[l][w].Numbered() && NumberInRange(c, st, l, w);
  }
}
