/**
 The latency model and the choice of a segmentation: a two-stage pipeline in which the
 communication of a segment overlaps the computation of the next ones.
 Times are exact reals; `comm` is the interpolated communication time of an element count.
 */
module SearchLatency {
  import opened Arith
  import opened Sequences

  function RealMax(a: real, b: real): real {
    if a >= b then a else b
  }

  function RealSum(s: seq<real>): real {
    if s == [] then 0.0 else s[0] + RealSum(s[1..])
  }

  lemma {:induction false} RealSumSnoc(s: seq<real>, x: real)
    ensures RealSum(s + [x]) == RealSum(s) + x
  {
    if s == [] {
      assert [] + [x] == [x];
    } else {
      assert (s + [x])[1..] == s[1..] + [x];
      RealSumSnoc(s[1..], x);
    }
  }

  lemma RealSumOne(x: real)
    ensures RealSum([x]) == x
  {
  }

  /** What the prediction loop works with. */
  datatype Model = Model(
    elemsPerTile: int,     // M * N // tile_num
    computeSms: nat,
    gemmDur: real,         // measured GEMM time on all SMs
    perWave: real,         // rescaled GEMM time per wave on the SMs left for computing
    comm: int -> real)
  {
    ghost predicate Valid() {
      computeSms > 0 && perWave >= 0.0
    }

    /** Compute time of a segment: its waves at the rescaled time per wave. */
    function Comp(tiles: nat): real
      requires computeSms > 0
    {
      perWave * CeilDiv(tiles, computeSms) as real
    }

    function Comm(tiles: int): real {
      comm(elemsPerTile * tiles)
    }
  }

  /** The head of `predict_lat`: GEMM time rescaled from smCount to computeSms SMs, per new wave.
      The rescaling by the new wave count cancels: what is left is the measured time per old wave. */
  function MakeModel(elemsPerTile: int, tileNum: nat, smCount: nat, computeSms: nat, gemmDur: real,
                     comm: int -> real): (m: Model)
    requires tileNum > 0 && smCount > 0 && computeSms > 0 && gemmDur >= 0.0
    ensures m.Valid() && m.elemsPerTile == elemsPerTile && m.computeSms == computeSms && m.gemmDur == gemmDur
    ensures m.comm == comm && CeilDiv(tileNum, smCount) > 0
    ensures m.perWave * CeilDiv(tileNum, smCount) as real == gemmDur
  {
    CeilDivLeast(tileNum, smCount, 0);
    CeilDivLeast(tileNum, computeSms, 0);
    var oldWaves, newWaves := CeilDiv(tileNum, smCount) as real, CeilDiv(tileNum, computeSms) as real;
    var scaledGemmDur := gemmDur / oldWaves * newWaves;
    RescaleCancels(gemmDur, oldWaves, newWaves);
    Model(elemsPerTile, computeSms, gemmDur, scaledGemmDur / newWaves, comm)
  }

  lemma RescaleCancels(d: real, x: real, y: real)
    requires d >= 0.0 && x > 0.0 && y > 0.0
    ensures d / x * y / y * x == d && d / x * y / y >= 0.0
  {
  }

  function Comps(m: Model, gp: seq<nat>): (r: seq<real>)
    requires m.Valid()
    ensures |r| == |gp|
  {
    seq(|gp|, i requires 0 <= i < |gp| => m.Comp(gp[i]))
  }

  function Comms(m: Model, gp: seq<nat>): (r: seq<real>)
    ensures |r| == |gp|
  {
    seq(|gp|, i requires 0 <= i < |gp| => m.Comm(gp[i]))
  }

  /** A path through the pipeline: compute segments 0..j, then communicate segments j..last. */
  function PathThrough(comp: seq<real>, comm: seq<real>, j: nat): real
    requires |comp| == |comm| && j < |comp|
  {
    RealSum(comp[..j + 1]) + RealSum(comm[j..])
  }

  /** v is the longest path. */
  ghost predicate IsCriticalPath(comp: seq<real>, comm: seq<real>, v: real)
    requires |comp| == |comm|
  {
    && (forall j: nat :: j < |comp| ==> PathThrough(comp, comm, j) <= v)
    && (exists j: nat :: j < |comp| && PathThrough(comp, comm, j) == v)
  }

  /** The recurrence, segment by segment: when is the communication of the first i segments done? */
  function CommDone(comp: seq<real>, comm: seq<real>, i: nat): real
    requires |comp| == |comm| && i <= |comp|
  {
    if i == 0 then 0.0
    else RealMax(RealSum(comp[..i]), CommDone(comp, comm, i - 1)) + comm[i - 1]
  }

  lemma PathSnoc(comp: seq<real>, comm: seq<real>, i: nat, j: nat)
    requires |comp| == |comm| && j < i < |comp|
    ensures PathThrough(comp[..i + 1], comm[..i + 1], j) == PathThrough(comp[..i], comm[..i], j) + comm[i]
  {
    assert comp[..i + 1][..j + 1] == comp[..i][..j + 1];
    assert comm[..i + 1][j..] == comm[..i][j..] + [comm[i]];
    RealSumSnoc(comm[..i][j..], comm[i]);
  }

  lemma PathLast(comp: seq<real>, comm: seq<real>, i: nat)
    requires |comp| == |comm| && i < |comp|
    ensures PathThrough(comp[..i + 1], comm[..i + 1], i) == RealSum(comp[..i + 1]) + comm[i]
  {
    assert comp[..i + 1][..i + 1] == comp[..i + 1];
    assert comm[..i + 1][i..] == [comm[i]];
    RealSumOne(comm[i]);
  }

  /** The recurrence computes the critical path of every non-empty prefix. */
  lemma {:induction false} RecurrenceIsCriticalPath(comp: seq<real>, comm: seq<real>, i: nat)
    requires |comp| == |comm| && 0 < i <= |comp| && comp[0] >= 0.0
    ensures IsCriticalPath(comp[..i], comm[..i], CommDone(comp, comm, i))
  {
    var k := i - 1;
    PathLast(comp, comm, k);
    var v := CommDone(comp, comm, i);
    if k == 0 {
      RealSumOne(comp[0]);
      assert comp[..i] == [comp[0]];
      assert CommDone(comp, comm, k) == 0.0;
      assert PathThrough(comp[..i], comm[..i], 0) == v;
    } else {
      RecurrenceIsCriticalPath(comp, comm, k);
      var before := CommDone(comp, comm, k);
      forall j: nat | j < i ensures PathThrough(comp[..i], comm[..i], j) <= v {
        if j < k {
          PathSnoc(comp, comm, k, j);
        }
      }
      if before > RealSum(comp[..i]) {
        var j: nat :| j < k && PathThrough(comp[..k], comm[..k], j) == before;
        PathSnoc(comp, comm, k, j);
        assert PathThrough(comp[..i], comm[..i], j) == v;
      } else {
        assert PathThrough(comp[..i], comm[..i], k) == v;
      }
    }
  }

  // ---------- in waves ----------

  /** waves[i] is the least number of waves of computeSms tiles that hold segment i. */
  ghost predicate CountsWaves(m: Model, gp: seq<nat>, waves: seq<nat>) {
    |waves| == |gp| && forall i: nat :: i < |gp| ==> JustHold(m.computeSms, gp[i], waves[i])
  }

  /** w rounds of `sms` tiles hold them, and one round fewer does not. */
  predicate JustHold(sms: nat, tiles: nat, w: nat) {
    (w - 1) * sms < tiles <= w * sms
  }

  /** A wave that is not full costs as much as a full one. */
  lemma CompWaves(m: Model, tiles: nat, w: nat)
    requires m.Valid() && JustHold(m.computeSms, tiles, w)
    ensures m.Comp(tiles) == w as real * m.perWave
  {
    var n: int := w;
    CeilDivLeast(tiles, m.computeSms, n);
    CeilDivLeast(tiles, m.computeSms, n - 1);
  }

  function WaveTime(m: Model, w: nat): real {
    w as real * m.perWave
  }

  function WaveTimes(m: Model, waves: seq<nat>): (r: seq<real>)
    ensures |r| == |waves|
    ensures forall i :: 0 <= i < |r| ==> r[i] == WaveTime(m, waves[i])
  {
    seq(|waves|, i requires 0 <= i < |waves| => WaveTime(m, waves[i]))
  }

  function CommTimes(m: Model, gp: seq<nat>): (r: seq<real>)
    ensures |r| == |gp|
  {
    seq(|gp|, i requires 0 <= i < |gp| => m.comm(m.elemsPerTile * gp[i]))
  }

  lemma InWaves(m: Model, gp: seq<nat>, waves: seq<nat>)
    requires m.Valid() && CountsWaves(m, gp, waves)
    ensures Comps(m, gp) == WaveTimes(m, waves) && Comms(m, gp) == CommTimes(m, gp)
  {
    forall i: nat | i < |gp| ensures Comps(m, gp)[i] == WaveTimes(m, waves)[i] {
      assert JustHold(m.computeSms, gp[i], waves[i]);
      CompWaves(m, gp[i], waves[i]);
    }
  }

  /** What a latency means: the sum for one segment, the longest path through waves and collectives for several. */
  ghost predicate LatencyMeans(m: Model, gp: seq<nat>, waves: seq<nat>, lat: real)
    requires gp != []
  {
    if |gp| == 1 then lat == m.gemmDur + m.comm(m.elemsPerTile * gp[0])
    else |waves| == |gp| && IsCriticalPath(WaveTimes(m, waves), CommTimes(m, gp), lat)
  }

  ghost predicate MeansInWaves(m: Model, gp: seq<nat>, lat: real)
    requires gp != []
  {
    forall waves :: CountsWaves(m, gp, waves) ==> LatencyMeans(m, gp, waves, lat)
  }

  lemma PredictedMeans(m: Model, gp: seq<nat>)
    requires m.Valid() && gp != []
    ensures MeansInWaves(m, gp, Predicted(m, gp))
  {
    if |gp| > 1 {
      CompNonneg(m, gp[0]);
      RecurrenceIsCriticalPath(Comps(m, gp), Comms(m, gp), |gp|);
      assert Comps(m, gp)[..|gp|] == Comps(m, gp) && Comms(m, gp)[..|gp|] == Comms(m, gp);
    }
    forall waves | CountsWaves(m, gp, waves) ensures LatencyMeans(m, gp, waves, Predicted(m, gp)) {
      InWaves(m, gp, waves);
    }
  }

  /** Every segmentation has its wave counts. */
  lemma {:induction false} WavesExist(m: Model, gp: seq<nat>) returns (waves: seq<nat>)
    requires m.Valid()
    ensures CountsWaves(m, gp, waves)
  {
    waves := [];
    if gp != [] {
      var rest := WavesExist(m, gp[1..]);
      var w: int := CeilDiv(gp[0], m.computeSms);
      CeilDivLeast(gp[0], m.computeSms, w);
      CeilDivLeast(gp[0], m.computeSms, w - 1);
      waves := [w] + rest;
    }
  }

  function AllWaves(m: Model, waves: seq<nat>): real {
    m.perWave * Sum(waves) as real
  }

  /** With free communication the latency of several segments is the time of all their waves. */
  lemma FreeCommunication(m: Model, gp: seq<nat>, waves: seq<nat>, lat: real)
    requires m.Valid() && |gp| > 1 && LatencyMeans(m, gp, waves, lat) && forall x :: m.comm(x) == 0.0
    ensures lat == m.perWave * Sum(waves) as real
  {
    var last := |gp| - 1;
    var j := LongestPath(WaveTimes(m, waves), CommTimes(m, gp), lat, last);
    FreePath(m, gp, waves, j);
    FreePath(m, gp, waves, last);
    PrefixWaves(m, waves, j + 1, last + 1);
  }

  lemma PrefixWaves(m: Model, waves: seq<nat>, i: nat, n: nat)
    requires m.Valid() && i <= n == |waves|
    ensures AllWaves(m, waves[..i]) <= AllWaves(m, waves[..n]) == AllWaves(m, waves)
  {
    assert waves[..n] == waves;
    SumPrefixAll(waves, i);
    ScaleLe(Sum(waves[..i]), Sum(waves), m.perWave);
  }

  /** A path of that length, and no path, the given one included, is longer. */
  lemma LongestPath(comp: seq<real>, comm: seq<real>, v: real, other: nat) returns (j: nat)
    requires |comp| == |comm| && IsCriticalPath(comp, comm, v) && other < |comp|
    ensures j < |comp| && PathThrough(comp, comm, j) == v && PathThrough(comp, comm, other) <= v
  {
    j :| j < |comp| && PathThrough(comp, comm, j) == v;
  }

  lemma FreePath(m: Model, gp: seq<nat>, waves: seq<nat>, j: nat)
    requires |gp| == |waves| && j < |waves| && forall x :: m.comm(x) == 0.0
    ensures PathThrough(WaveTimes(m, waves), CommTimes(m, gp), j) == AllWaves(m, waves[..j + 1])
  {
    ZeroSum(CommTimes(m, gp)[j..]);
    WavesSum(m, waves[..j + 1]);
    assert WaveTimes(m, waves)[..j + 1] == WaveTimes(m, waves[..j + 1]);
  }

  lemma ScaleLe(a: int, b: int, x: real)
    requires a <= b && x >= 0.0
    ensures x * a as real <= x * b as real
  {
  }

  lemma {:induction false} ZeroSum(s: seq<real>)
    requires forall i :: 0 <= i < |s| ==> s[i] == 0.0
    ensures RealSum(s) == 0.0
  {
    if s != [] {
      ZeroSum(s[1..]);
    }
  }

  lemma {:induction false} WavesSum(m: Model, waves: seq<nat>)
    ensures RealSum(WaveTimes(m, waves)) == m.perWave * Sum(waves) as real
  {
    if waves != [] {
      WavesSum(m, waves[1..]);
      assert WaveTimes(m, waves)[1..] == WaveTimes(m, waves[1..]);
      assert (waves[0] + Sum(waves[1..])) as real * m.perWave == WaveTime(m, waves[0]) + Sum(waves[1..]) as real * m.perWave;
    }
  }

  /** `predict_lat` for a non-empty segmentation. */
  method PredictLat(m: Model, gp: seq<nat>) returns (lat: real)
    requires m.Valid() && gp != []
    ensures |gp| == 1 ==> lat == m.Comm(gp[0]) + m.gemmDur
    ensures |gp| > 1 ==> IsCriticalPath(Comps(m, gp), Comms(m, gp), lat)
    ensures lat == Predicted(m, gp)
    ensures MeansInWaves(m, gp, lat)
  {
    if |gp| == 1 {
      PredictedMeans(m, gp);
      return m.comm(m.elemsPerTile * gp[0]) + m.gemmDur;
    }
    ghost var comp, comm := Comps(m, gp), Comms(m, gp);
    var accComm, accComp := 0.0, 0.0;
    var i := 0;
    while i < |gp|
      invariant i <= |gp|
      invariant accComp == RealSum(comp[..i])
      invariant accComm == CommDone(comp, comm, if i == 0 then 0 else i - 1)
    {
      var commDur := if i == 0 then 0.0 else m.comm(m.elemsPerTile * gp[i - 1]);
      var compDur := m.Comp(gp[i]);
      AccStep(comp, comm, i, accComp, accComm, compDur, commDur);
      accComm := RealMax(accComp, accComm) + commDur;
      accComp := accComp + compDur;
      i := i + 1;
    }
    lat := RealMax(accComp, accComm) + m.comm(m.elemsPerTile * gp[|gp| - 1]);
    assert comp[..i] == comp && comm[..i] == comm;
    CompNonneg(m, gp[0]);
    RecurrenceIsCriticalPath(comp, comm, |gp|);
    PredictedMeans(m, gp);
  }

  lemma CompNonneg(m: Model, tiles: nat)
    requires m.Valid()
    ensures m.Comp(tiles) >= 0.0
  {
  }

  /** The predicted latency of a segmentation, as one value. */
  function Predicted(m: Model, gp: seq<nat>): real
    requires m.Valid() && gp != []
  {
    if |gp| == 1 then m.Comm(gp[0]) + m.gemmDur else CommDone(Comps(m, gp), Comms(m, gp), |gp|)
  }

  /** One traced turn of the recurrence. */
  datatype Turn = Turn(segTiles: nat, compDur: real, prevComp: real, prevComm: real,
                       commDur: real, newComp: real, newComm: real)

  /** Turn k continues turn k - 1 and does what the recurrence says. */
  ghost predicate GoodTurn(m: Model, gp: seq<nat>, trace: seq<Turn>, k: nat)
    requires m.Valid() && k < |trace| && k < |gp|
  {
    var t := trace[k];
    && t.segTiles == gp[k] && t.compDur == m.Comp(gp[k])
    && t.newComp == t.prevComp + t.compDur
    && t.newComm == RealMax(t.prevComp, t.prevComm) + t.commDur
    && if k == 0 then t.prevComp == t.prevComm == t.commDur == 0.0
       else t.prevComp == trace[k - 1].newComp && t.prevComm == trace[k - 1].newComm && t.commDur == m.Comm(gp[k - 1])
  }

  /** `predict_lat_with_debug`: the same value, with a trace in which every turn starts where the
      previous one ended and the last one ends at the returned total. */
  method PredictLatWithDebug(m: Model, gp: seq<nat>) returns (lat: real, trace: seq<Turn>)
    requires m.Valid() && gp != []
    ensures lat == Predicted(m, gp) && MeansInWaves(m, gp, lat)
    ensures |trace| == if |gp| == 1 then 0 else |gp|
    ensures forall k :: 0 <= k < |trace| ==> GoodTurn(m, gp, trace, k)
    ensures trace != [] ==>
              lat == RealMax(trace[|trace| - 1].newComp, trace[|trace| - 1].newComm) + m.Comm(gp[|gp| - 1])
  {
    trace := [];
    PredictedMeans(m, gp);
    if |gp| == 1 {
      return m.Comm(gp[0]) + m.gemmDur, trace;
    }
    ghost var comp, comm := Comps(m, gp), Comms(m, gp);
    var accComm, accComp := 0.0, 0.0;
    var i := 0;
    while i < |gp|
      invariant i <= |gp| && |trace| == i
      invariant accComp == RealSum(comp[..i])
      invariant accComm == CommDone(comp, comm, if i == 0 then 0 else i - 1)
      invariant if i == 0 then accComp == accComm == 0.0
                else trace[i - 1].newComp == accComp && trace[i - 1].newComm == accComm
      invariant forall k :: 0 <= k < i ==> GoodTurn(m, gp, trace, k)
    {
      var commDur := if i == 0 then 0.0 else m.Comm(gp[i - 1]);
      var compDur := m.Comp(gp[i]);
      var newComm, newComp := RealMax(accComp, accComm) + commDur, accComp + compDur;
      ghost var before := trace;
      trace := trace + [Turn(gp[i], compDur, accComp, accComm, commDur, newComp, newComm)];
      forall k | 0 <= k < i ensures GoodTurn(m, gp, trace, k) {
        assert GoodTurn(m, gp, before, k);
      }
      AccStep(comp, comm, i, accComp, accComm, compDur, commDur);
      accComm, accComp := newComm, newComp;
      i := i + 1;
    }
    assert comp[..i] == comp;
    lat := RealMax(accComp, accComm) + m.Comm(gp[|gp| - 1]);
  }

  /** One turn of either loop advances the two accumulators as the recurrence says. */
  lemma AccStep(comp: seq<real>, comm: seq<real>, i: nat, accComp: real, accComm: real, compDur: real, commDur: real)
    requires |comp| == |comm| && i < |comp| && compDur == comp[i]
    requires commDur == if i == 0 then 0.0 else comm[i - 1]
    requires accComp == RealSum(comp[..i]) && accComm == CommDone(comp, comm, if i == 0 then 0 else i - 1)
    ensures accComp + compDur == RealSum(comp[..i + 1])
    ensures RealMax(accComp, accComm) + commDur == CommDone(comp, comm, i)
  {
    assert comp[..i + 1] == comp[..i] + [comp[i]];
    RealSumSnoc(comp[..i], comp[i]);
  }
}
