/** `fast_search`: evaluates the candidate segmentations in order and keeps the first best one. */
module SearchSelect {
  import opened Arith
  import opened Sequences
  import opened SearchPartitions
  import opened SearchLatency
  import opened Wrappers

  /** Start value of the running minimum. */
  const NO_LATENCY := 10000000000000000000000000000000000000000000000000000000000000000000000000000000000000000000000000000.0

  /** Long segmentations with a large first segment are skipped. */
  predicate ColdStart(units: seq<nat>) {
    |units| > 5 && units[0] > 2
  }

  /** The problem the search is run on: tiles, SMs left for computing, waves per search unit. */
  datatype Problem = Problem(tiles: nat, computeSms: nat, groupSize: nat)
  {
    ghost predicate Valid() { tiles > 0 && computeSms > 0 && groupSize > 0 }

    function Units(): nat
      requires computeSms > 0 && groupSize > 0
    {
      CeilDiv(CeilDiv(tiles, computeSms), groupSize)
    }
  }

  /** The least number of units of groupSize waves of computeSms tiles that hold the tiles. */
  lemma UnitsHold(p: Problem, n: int)
    requires p.Valid()
    ensures p.tiles <= n * (p.computeSms * p.groupSize) <==> p.Units() <= n
  {
    MulPos(p.computeSms, p.groupSize);
    CeilDivNested(p.tiles, p.computeSms, p.groupSize);
    CeilDivLeast(p.tiles, p.computeSms * p.groupSize, n);
  }

  function Candidates(p: Problem): seq<seq<nat>>
    requires p.Valid()
  {
    Extensions(p.Units(), [])
  }

  /** Segment sizes of a candidate. */
  function Segments(p: Problem, units: seq<nat>): (gp: seq<nat>)
    requires p.Valid() && IsComposition(units, p.Units())
    ensures gp != [] && Positive(gp) && Sum(gp) == p.tiles
  {
    ExpansionCovers(units, p.computeSms, p.groupSize, p.tiles);
    var gp := Expanded(units, p.computeSms * p.groupSize, p.tiles);
    assert gp == [] ==> Sum(gp) == 0;
    gp
  }

  /** Every part but the last stands for whole groups of waves; the last one takes the tiles that are left. */
  lemma SegmentsAre(p: Problem, units: seq<nat>, i: nat)
    requires p.Valid() && IsComposition(units, p.Units()) && i < |units|
    ensures |Segments(p, units)| == |units|
    ensures i < |units| - 1 ==> Segments(p, units)[i] == units[i] * (p.computeSms * p.groupSize)
    ensures i == |units| - 1 ==> Segments(p, units)[i] == p.tiles - Sum(Segments(p, units)[..i])
  {
    var gp := Segments(p, units);
    SumSnoc(gp, |gp| - 1);
    assert gp[..|gp|] == gp;
  }

  lemma CandidateIsComposition(p: Problem, i: nat)
    requires p.Valid() && i < |Candidates(p)|
    ensures IsComposition(Candidates(p)[i], p.Units())
    ensures Candidates(p)[i] != []
  {
    var tail := ExtensionsSound(p.Units(), [], Candidates(p)[i]);
    assert [] + tail == tail;
    UnitsPositive(p);
  }

  lemma UnitsPositive(p: Problem)
    requires p.Valid()
    ensures p.Units() > 0
  {
  }

  /** Predicted latency of candidate i. */
  function Cost(p: Problem, m: Model, i: nat): real
    requires p.Valid() && m.Valid() && i < |Candidates(p)|
  {
    CandidateIsComposition(p, i);
    Predicted(m, Segments(p, Candidates(p)[i]))
  }

  /** The candidates as the selection loop sees them: skipped, or evaluated at a cost. */
  function Verdicts(p: Problem, m: Model): (v: seq<Option<real>>)
    requires p.Valid() && m.Valid()
    ensures |v| == |Candidates(p)|
    ensures forall i :: 0 <= i < |v| ==> v[i] == if ColdStart(Candidates(p)[i]) then None else Some(Cost(p, m, i))
  {
    seq(|Candidates(p)|, i requires 0 <= i < |Candidates(p)| =>
      if ColdStart(Candidates(p)[i]) then None else Some(Cost(p, m, i)))
  }

  /** Skipped are exactly the candidates of six or more segments whose first part is three units or more. */
  lemma SkippedExactly(p: Problem, m: Model, i: nat)
    requires p.Valid() && m.Valid() && i < |Candidates(p)|
    ensures Verdicts(p, m)[i].None? <==> |Candidates(p)[i]| >= 6 && Candidates(p)[i][0] >= 3
  {
  }

  /** 10 to the power of 100. */
  lemma StartValue(h: real)
    requires h == 10000000000.0
    ensures NO_LATENCY == h * h * h * h * h * h * h * h * h * h
  {
  }

  /** b is the earliest of the cheapest evaluated candidates, and cheaper than the start value. */
  ghost predicate EarliestMinimum(v: seq<Option<real>>, b: nat) {
    && b < |v| && v[b].Some? && v[b].value < NO_LATENCY
    && (forall i :: 0 <= i < |v| && v[i].Some? ==> v[b].value <= v[i].value)
    && (forall i :: 0 <= i < b && v[i].Some? ==> v[b].value < v[i].value)
  }

  /** What the selection knows after the candidates v. */
  ghost predicate Selected(v: seq<Option<real>>, best: Option<nat>, minDur: real) {
    match best
    case None => minDur == NO_LATENCY && forall k :: 0 <= k < |v| && v[k].Some? ==> v[k].value >= NO_LATENCY
    case Some(b) => EarliestMinimum(v, b) && minDur == v[b].value
  }

  lemma SelectedStep(v: seq<Option<real>>, n: nat, best: Option<nat>, minDur: real)
    requires n < |v| && Selected(v[..n], best, minDur)
    ensures v[n].None? || v[n].value >= minDur ==> Selected(v[..n + 1], best, minDur)
    ensures v[n].Some? && v[n].value < minDur ==> Selected(v[..n + 1], Some(n), v[n].value)
  {
  }

  /** Among the first n candidates, those with five segments or fewer or a first part of at most two units. */
  ghost function Tried(p: Problem, n: nat): set<nat>
    requires p.Valid() && n <= |Candidates(p)|
  {
    set i: nat | i < n && (|Candidates(p)[i]| <= 5 || Candidates(p)[i][0] <= 2)
  }

  lemma TriedNext(p: Problem, n: nat)
    requires p.Valid() && n < |Candidates(p)|
    ensures |Tried(p, n + 1)| == |Tried(p, n)| + if ColdStart(Candidates(p)[n]) then 0 else 1
  {
    if ColdStart(Candidates(p)[n]) {
      assert Tried(p, n + 1) == Tried(p, n);
    } else {
      assert Tried(p, n + 1) == Tried(p, n) + {n};
    }
  }

  /** The selection loop.  It finds a segmentation exactly when some evaluated candidate is below
      the start value, and then returns the earliest cheapest one. */
  method SelectSegmentation(p: Problem, m: Model)
    returns (bestCSeg: Option<seq<nat>>, minDur: real, evaluated: nat, ghost best: Option<nat>)
    requires p.Valid() && m.Valid()
    ensures Matches(p, bestCSeg, best)
    ensures best.Some? <==> exists v :: v in Verdicts(p, m) && v.Some? && v.value < NO_LATENCY
    ensures best.Some? ==>
              EarliestMinimum(Verdicts(p, m), best.value) && Verdicts(p, m)[best.value] == Some(minDur)
    ensures evaluated == |Tried(p, |Candidates(p)|)| > 0
  {
    var partitions := IntegerPartitions(p.Units());
    bestCSeg, minDur, evaluated, best := SelectLoop(p, m, partitions);
    SelectedMeans(Verdicts(p, m), best, minDur);
  }

  lemma SelectedMeans(v: seq<Option<real>>, best: Option<nat>, minDur: real)
    requires Selected(v, best, minDur)
    ensures best.Some? <==> exists x :: x in v && x.Some? && x.value < NO_LATENCY
    ensures best.Some? ==> EarliestMinimum(v, best.value) && v[best.value] == Some(minDur)
  {
  }

  method SelectLoop(p: Problem, m: Model, partitions: seq<seq<nat>>)
    returns (bestCSeg: Option<seq<nat>>, minDur: real, evaluated: nat, ghost best: Option<nat>)
    requires p.Valid() && m.Valid() && partitions == Candidates(p)
    ensures Matches(p, bestCSeg, best) && Selected(Verdicts(p, m), best, minDur)
    ensures evaluated == |Tried(p, |Candidates(p)|)| > 0
  {
    bestCSeg, minDur, evaluated, best := None, NO_LATENCY, 0, None;
    ghost var ones := AllOnes(p);
    var i := 0;
    while i < |partitions|
      invariant i <= |partitions|
      invariant Selected(Verdicts(p, m)[..i], best, minDur)
      invariant Matches(p, bestCSeg, best)
      invariant evaluated == |Tried(p, i)| && (ones < i ==> evaluated > 0)
    {
      TriedNext(p, i);
      bestCSeg, minDur, evaluated, best := Consider(p, m, i, partitions[i], bestCSeg, minDur, evaluated, best);
      i := i + 1;
    }
    assert Verdicts(p, m)[..i] == Verdicts(p, m);
  }

  ghost predicate Matches(p: Problem, cSeg: Option<seq<nat>>, best: Option<nat>)
    requires p.Valid()
  {
    && (cSeg.Some? <==> best.Some?)
    && (best.Some? ==>
          && best.value < |Candidates(p)| && IsComposition(Candidates(p)[best.value], p.Units())
          && cSeg.value == Segments(p, Candidates(p)[best.value]))
  }

  /** The loop body for candidate i. */
  method Consider(p: Problem, m: Model, ghost i: nat, gpUnits: seq<nat>,
                  bestCSeg: Option<seq<nat>>, minDur: real, evaluated: nat, ghost best: Option<nat>)
    returns (bestCSeg': Option<seq<nat>>, minDur': real, evaluated': nat, ghost best': Option<nat>)
    requires p.Valid() && m.Valid() && i < |Candidates(p)| && gpUnits == Candidates(p)[i]
    requires Selected(Verdicts(p, m)[..i], best, minDur) && Matches(p, bestCSeg, best)
    ensures Selected(Verdicts(p, m)[..i + 1], best', minDur') && Matches(p, bestCSeg', best')
    ensures evaluated' == evaluated + if ColdStart(gpUnits) then 0 else 1
  {
    bestCSeg', minDur', evaluated', best' := bestCSeg, minDur, evaluated, best;
    CandidateIsComposition(p, i);
    SelectedStep(Verdicts(p, m), i, best, minDur);
    if |gpUnits| > 5 && gpUnits[0] > 2 {
      return;
    }
    var cSeg, estDur := Evaluate(p, m, i, gpUnits);
    evaluated' := evaluated + 1;
    if estDur < minDur {
      minDur' := estDur;
      bestCSeg' := Some(cSeg);
      best' := Some(i);
    }
  }

  /** One candidate: its segment sizes and its predicted latency. */
  method Evaluate(p: Problem, m: Model, ghost i: nat, units: seq<nat>) returns (cSeg: seq<nat>, estDur: real)
    requires p.Valid() && m.Valid() && i < |Candidates(p)| && units == Candidates(p)[i]
    ensures IsComposition(units, p.Units()) && cSeg == Segments(p, units) && estDur == Cost(p, m, i)
  {
    CandidateIsComposition(p, i);
    ExpansionCovers(units, p.computeSms, p.groupSize, p.tiles);
    cSeg := ExpandPartition(units, p.computeSms, p.groupSize, p.tiles);
    estDur := PredictLat(m, cSeg);
  }

  /** The loop always evaluates something: the finest candidate is never skipped. */
  lemma AllOnes(p: Problem) returns (i: nat)
    requires p.Valid()
    ensures i < |Candidates(p)| && !ColdStart(Candidates(p)[i])
  {
    var n := p.Units();
    var ones := seq(n, k => 1);
    OnesCompose(n);
    assert [] + ones == ones;
    ExtensionsComplete(n, [], ones);
    i :| 0 <= i < |Candidates(p)| && Candidates(p)[i] == ones;
  }

  lemma {:induction false} OnesCompose(n: nat)
    ensures IsComposition(seq(n, k => 1), n)
  {
    var ones: seq<nat> := seq(n, k => 1);
    if n > 0 {
      OnesCompose(n - 1);
      assert ones == [1] + seq(n - 1, k => 1);
      CompositionCons(1, seq(n - 1, k => 1), n);
    }
  }

  // ---------- against the launch without overlap ----------

  /** One segment with all tiles: the whole GEMM, then one collective. */
  function Serial(p: Problem, m: Model): real {
    m.Comm(p.tiles) + m.gemmDur
  }

  /** It is always among the evaluated candidates. */
  lemma SerialCandidate(p: Problem, m: Model) returns (i: nat)
    requires p.Valid() && m.Valid()
    ensures i < |Candidates(p)| && Candidates(p)[i] == [p.Units()] && Verdicts(p, m)[i] == Some(Serial(p, m))
  {
    var n := p.Units();
    UnitsPositive(p);
    WholeComposes(n);
    assert [] + [n] == [n];
    ExtensionsComplete(n, [], [n]);
    i :| 0 <= i < |Candidates(p)| && Candidates(p)[i] == [n];
    WholeSegment(p, [n]);
  }

  lemma WholeComposes(n: nat)
    requires n > 0
    ensures IsComposition([n], n)
  {
    assert Sum([n]) == n + Sum([]);
  }

  lemma WholeSegment(p: Problem, units: seq<nat>)
    requires p.Valid() && IsComposition(units, p.Units()) && |units| == 1
    ensures Segments(p, units) == [p.tiles]
  {
    var gp := Segments(p, units);
    assert |gp| == 1 && Sum(gp) == gp[0] + Sum(gp[1..]);
  }

  /** So a segmentation is found whenever the launch without overlap is below the start value, and
      the one found is never predicted slower than that launch. */
  lemma NeverWorseThanSerial(p: Problem, m: Model, b: nat)
    requires p.Valid() && m.Valid()
    ensures Serial(p, m) < NO_LATENCY ==> exists v :: v in Verdicts(p, m) && v.Some? && v.value < NO_LATENCY
    ensures EarliestMinimum(Verdicts(p, m), b) ==> Verdicts(p, m)[b].value <= Serial(p, m)
  {
    var i := SerialCandidate(p, m);
    assert Verdicts(p, m)[i] in Verdicts(p, m);
  }

  /** Where every collective takes at least the start value, nothing is found. */
  lemma SlowCollectives(p: Problem, m: Model)
    requires p.Valid() && m.Valid() && m.gemmDur >= 0.0
    requires forall x :: m.comm(x) >= NO_LATENCY
    ensures forall v :: v in Verdicts(p, m) && v.Some? ==> v.value >= NO_LATENCY
  {
    forall i | 0 <= i < |Candidates(p)| ensures Cost(p, m, i) >= NO_LATENCY {
      CandidateIsComposition(p, i);
      LastCollective(m, Segments(p, Candidates(p)[i]));
    }
  }

  /** The last collective alone is part of every predicted latency. */
  lemma LastCollective(m: Model, gp: seq<nat>)
    requires m.Valid() && gp != [] && m.gemmDur >= 0.0
    ensures RealSum(Comps(m, gp)) >= 0.0
    ensures Predicted(m, gp) >= m.Comm(gp[|gp| - 1])
  {
    CompsNonneg(m, gp);
    assert Comps(m, gp)[..|gp|] == Comps(m, gp);
  }

  lemma {:induction false} CompsNonneg(m: Model, gp: seq<nat>)
    requires m.Valid()
    ensures RealSum(Comps(m, gp)) >= 0.0
  {
    if gp != [] {
      CompNonneg(m, gp[0]);
      CompsNonneg(m, gp[1..]);
      assert Comps(m, gp)[1..] == Comps(m, gp[1..]);
    }
  }

  /** A model in which the selection comes back empty: one wave, and collectives at the start value. */
  lemma SearchCanFail(p: Problem, m: Model)
    requires p == Problem(1, 1, 1) && m == Model(1, 1, 1.0, 1.0, x => NO_LATENCY)
    ensures p.Valid() && m.Valid()
    ensures !exists v :: v in Verdicts(p, m) && v.Some? && v.value < NO_LATENCY
  {
    SlowCollectives(p, m);
  }
}
