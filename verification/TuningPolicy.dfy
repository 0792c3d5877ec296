/**
 The uncached launch-config selection: nearest measured size, best-ranked pair that fits the runtime
 caps, and the fallback.  Ratios are exact here; the source compares them as long double.
 */
module TuningPolicy {
  import opened Arith
  import opened LaunchConfigs
  import opened Wrappers

  datatype Candidate = Candidate(maxCtas: int, maxCtasPerReduceTask: int)

  datatype PolicyPoint = PolicyPoint(collective: Collective, worldSize: int, bytes: nat, ranked: seq<Candidate>)

  datatype Caps = Caps(maxCtas: Option<int>, maxCtasPerReduceTask: Option<int>)

  predicate ValidCandidate(c: Candidate) {
    && 0 < c.maxCtas <= MAX_CTAS
    && 0 < c.maxCtasPerReduceTask <= c.maxCtas
    && c.maxCtasPerReduceTask <= MAX_CTAS
  }

  lemma ValidCandidateMeans(c: Candidate)
    ensures ValidCandidate(c) <==> 1 <= c.maxCtasPerReduceTask <= c.maxCtas <= 32
  {
  }

  /** What the policy parser lets through. */
  ghost predicate ParsedPoint(p: PolicyPoint) {
    && p.worldSize > 0 && p.bytes > 0 && p.ranked != []
    && forall k :: 0 <= k < |p.ranked| ==> ValidCandidate(p.ranked[k])
  }

  ghost predicate ParsedPolicy(points: seq<PolicyPoint>) {
    forall i :: 0 <= i < |points| ==> ParsedPoint(points[i])
  }

  /** What the environment parser lets through. */
  predicate ParsedCaps(caps: Caps) {
    (caps.maxCtas.Some? ==> caps.maxCtas.value > 0) &&
    (caps.maxCtasPerReduceTask.Some? ==> caps.maxCtasPerReduceTask.value > 0)
  }

  // ---------- nearest policy point ----------

  predicate Matches(p: PolicyPoint, collective: Collective, worldSize: int) {
    p.collective == collective && p.worldSize == worldSize
  }

  /** The larger of requested/bytes and bytes/requested. */
  function Distance(bytes: nat, requested: nat): real
    requires bytes > 0 && requested > 0
  {
    if bytes <= requested then requested as real / bytes as real else bytes as real / requested as real
  }

  lemma DistanceBelow(a: nat, b: nat, requested: nat)
    requires 0 < a < b <= requested
    ensures Distance(b, requested) < Distance(a, requested)
  {
  }

  lemma DistanceAbove(a: nat, b: nat, requested: nat)
    requires 0 < requested <= a < b
    ensures Distance(a, requested) < Distance(b, requested)
  {
  }

  /** Size a is strictly nearer than size b; equal ratios go to the smaller size. */
  predicate Nearer(a: nat, b: nat, requested: nat)
    requires a > 0 && b > 0 && requested > 0
  {
    Distance(a, requested) < Distance(b, requested) || (Distance(a, requested) == Distance(b, requested) && a < b)
  }

  /** Reference definition: the earliest matching point, among the first n, that no other is nearer than. */
  ghost function Nearest(points: seq<PolicyPoint>, collective: Collective, worldSize: int, requested: nat,
                         n: nat): (r: Option<nat>)
    requires ParsedPolicy(points) && requested > 0 && n <= |points|
    ensures r.Some? ==> r.value < n && Matches(points[r.value], collective, worldSize)
  {
    if n == 0 then None
    else
      var best := Nearest(points, collective, worldSize, requested, n - 1);
      if Matches(points[n - 1], collective, worldSize) then Offer(points, requested, best, n - 1) else best
  }

  /** Nothing matches, or the chosen point beats every matching point: smaller ratio, then smaller size, then earlier. */
  lemma {:induction false} NearestIsMinimum(points: seq<PolicyPoint>, collective: Collective, worldSize: int,
                                  requested: nat, n: nat, j: nat)
    requires ParsedPolicy(points) && requested > 0 && j < n <= |points| && Matches(points[j], collective, worldSize)
    ensures var r := Nearest(points, collective, worldSize, requested, n);
            r.Some? && !Nearer(points[j].bytes, points[r.value].bytes, requested) &&
            (points[j].bytes == points[r.value].bytes ==> r.value <= j)
  {
    if j < n - 1 {
      NearestIsMinimum(points, collective, worldSize, requested, n - 1, j);
    }
  }

  /** In whole numbers: Max(b, q) / Min(b, q) is at most Max(a, q) / Min(a, q), and on equality b <= a. */
  ghost predicate AtLeastAsNear(b: nat, a: nat, q: nat) {
    && Max(b, q) * Min(a, q) <= Max(a, q) * Min(b, q)
    && (Max(b, q) * Min(a, q) == Max(a, q) * Min(b, q) ==> b <= a)
  }

  lemma RatioCompare(a: nat, b: nat, q: nat)
    requires a > 0 && b > 0 && q > 0
    ensures Distance(b, q) <= Distance(a, q) <==> Max(b, q) * Min(a, q) <= Max(a, q) * Min(b, q)
    ensures Distance(b, q) == Distance(a, q) <==> Max(b, q) * Min(a, q) == Max(a, q) * Min(b, q)
  {
    FractionCompare(Max(b, q), Min(b, q), Max(a, q), Min(a, q));
  }

  lemma FractionCompare(x: nat, y: nat, u: nat, v: nat)
    requires y > 0 && v > 0
    ensures x as real / y as real <= u as real / v as real <==> x * v <= u * y
    ensures x as real / y as real == u as real / v as real <==> x * v == u * y
  {
    var f, g := x as real / y as real, u as real / v as real;
    assert f * y as real == x as real && g * v as real == u as real;
    var d := y as real * v as real;
    assert f * d == (x * v) as real;
    assert g * d == (u * y) as real;
    RealScale(f, g, d);
  }

  lemma RealScale(f: real, g: real, d: real)
    requires d > 0.0
    ensures f <= g <==> f * d <= g * d
    ensures f == g <==> f * d == g * d
  {
  }

  /** The earliest of the points of a collective and world size that are nearest to the requested size. */
  ghost predicate IsNearestPoint(points: seq<PolicyPoint>, collective: Collective, worldSize: int, requested: nat,
                                 r: Option<nat>)
  {
    match r
    case None => forall j :: 0 <= j < |points| ==> !(points[j].collective == collective && points[j].worldSize == worldSize)
    case Some(i) =>
      && i < |points| && points[i].collective == collective && points[i].worldSize == worldSize
      && forall j :: 0 <= j < |points| && points[j].collective == collective && points[j].worldSize == worldSize ==>
           AtLeastAsNear(points[i].bytes, points[j].bytes, requested) && (points[j].bytes == points[i].bytes ==> i <= j)
  }

  lemma NearestByRatio(points: seq<PolicyPoint>, collective: Collective, worldSize: int, requested: nat)
    requires ParsedPolicy(points) && requested > 0
    ensures IsNearestPoint(points, collective, worldSize, requested, Nearest(points, collective, worldSize, requested, |points|))
  {
    var r := Nearest(points, collective, worldSize, requested, |points|);
    forall j: nat | j < |points| && points[j].collective == collective && points[j].worldSize == worldSize
      ensures r.Some? && AtLeastAsNear(points[r.value].bytes, points[j].bytes, requested)
      ensures r.Some? && (points[j].bytes == points[r.value].bytes ==> r.value <= j)
    {
      NearestIsMinimum(points, collective, worldSize, requested, |points|, j);
      RatioCompare(points[j].bytes, points[r.value].bytes, requested);
      RatioCompare(points[r.value].bytes, points[j].bytes, requested);
    }
  }

  lemma OneNearestPoint(points: seq<PolicyPoint>, collective: Collective, worldSize: int, requested: nat,
                        r: Option<nat>, r': Option<nat>)
    requires IsNearestPoint(points, collective, worldSize, requested, r)
    requires IsNearestPoint(points, collective, worldSize, requested, r')
    ensures r == r'
  {
  }

  /** An exact size match is final: no later point is nearer. */
  lemma {:induction false} ExactIsFinal(points: seq<PolicyPoint>, collective: Collective, worldSize: int,
                                  requested: nat, i: nat, n: nat)
    requires ParsedPolicy(points) && requested > 0 && i < n <= |points|
    requires Nearest(points, collective, worldSize, requested, i + 1) == Some(i) && points[i].bytes == requested
    ensures Nearest(points, collective, worldSize, requested, n) == Some(i)
    decreases n
  {
    if i + 1 < n {
      ExactIsFinal(points, collective, worldSize, requested, i, n - 1);
      NothingNearer(points[n - 1].bytes, requested);
    }
  }

  lemma NothingNearer(a: nat, requested: nat)
    requires a > 0 && requested > 0
    ensures !Nearer(a, requested, requested)
    ensures a != requested ==> Nearer(requested, a, requested)
  {
  }

  /** The scan keeps one size below the request and one above it. */
  predicate ScanState(points: seq<PolicyPoint>, requested: nat, prev: Option<nat>, next: Option<nat>) {
    && (prev.Some? ==> prev.value < |points| && points[prev.value].bytes < requested)
    && (next.Some? ==> next.value < |points| && points[next.value].bytes > requested)
  }

  /** One more matching point offered to the reference definition. */
  function Offer(points: seq<PolicyPoint>, requested: nat, best: Option<nat>, i: nat): Option<nat>
    requires ParsedPolicy(points) && requested > 0 && i < |points| && (best.Some? ==> best.value < |points|)
  {
    if best.None? || Nearer(points[i].bytes, points[best.value].bytes, requested) then Some(i) else best
  }

  /** The scan's final choice between its two candidates. */
  function Choose(points: seq<PolicyPoint>, requested: nat, prev: Option<nat>, next: Option<nat>): Option<nat>
    requires ParsedPolicy(points) && requested > 0 && ScanState(points, requested, prev, next)
  {
    if prev.None? then next
    else if next.None? then prev
    else if requested as real / points[prev.value].bytes as real <= points[next.value].bytes as real / requested as real then prev
    else next
  }

  function NewPrevious(points: seq<PolicyPoint>, prev: Option<nat>, i: nat): Option<nat>
    requires i < |points| && (prev.Some? ==> prev.value < |points|)
  {
    if prev.None? || points[i].bytes > points[prev.value].bytes then Some(i) else prev
  }

  function NewNext(points: seq<PolicyPoint>, next: Option<nat>, i: nat): Option<nat>
    requires i < |points| && (next.Some? ==> next.value < |points|)
  {
    if next.None? || points[i].bytes < points[next.value].bytes then Some(i) else next
  }

  /** Offering a size below the request to the scan is offering it to the reference definition. */
  lemma PreviousStep(points: seq<PolicyPoint>, requested: nat, prev: Option<nat>, next: Option<nat>, i: nat)
    requires ParsedPolicy(points) && requested > 0 && i < |points| && points[i].bytes < requested
    requires ScanState(points, requested, prev, next)
    ensures Offer(points, requested, Choose(points, requested, prev, next), i)
         == Choose(points, requested, NewPrevious(points, prev, i), next)
  {
    if prev.Some? {
      if points[i].bytes > points[prev.value].bytes {
        DistanceBelow(points[prev.value].bytes, points[i].bytes, requested);
      } else if points[i].bytes < points[prev.value].bytes {
        DistanceBelow(points[i].bytes, points[prev.value].bytes, requested);
      }
    }
  }

  lemma NextStep(points: seq<PolicyPoint>, requested: nat, prev: Option<nat>, next: Option<nat>, i: nat)
    requires ParsedPolicy(points) && requested > 0 && i < |points| && points[i].bytes > requested
    requires ScanState(points, requested, prev, next)
    ensures Offer(points, requested, Choose(points, requested, prev, next), i)
         == Choose(points, requested, prev, NewNext(points, next, i))
  {
    if next.Some? {
      if points[i].bytes < points[next.value].bytes {
        DistanceAbove(points[i].bytes, points[next.value].bytes, requested);
      } else if points[i].bytes > points[next.value].bytes {
        DistanceAbove(points[next.value].bytes, points[i].bytes, requested);
      }
    }
  }

  lemma ExactWins(points: seq<PolicyPoint>, collective: Collective, worldSize: int, requested: nat,
                  prev: Option<nat>, next: Option<nat>, i: nat)
    requires ParsedPolicy(points) && requested > 0 && i < |points| && ScanState(points, requested, prev, next)
    requires Nearest(points, collective, worldSize, requested, i) == Choose(points, requested, prev, next)
    requires Matches(points[i], collective, worldSize) && points[i].bytes == requested
    ensures Nearest(points, collective, worldSize, requested, |points|) == Some(i)
  {
    if prev.Some? || next.Some? {
      NothingNearer(points[Choose(points, requested, prev, next).value].bytes, requested);
    }
    ExactIsFinal(points, collective, worldSize, requested, i, |points|);
  }

  method SelectNearestPolicyPoint(points: seq<PolicyPoint>, collective: Collective, worldSize: int, requested: nat)
    returns (r: Option<nat>)
    requires ParsedPolicy(points) && requested > 0
    ensures r == Nearest(points, collective, worldSize, requested, |points|)
    ensures IsNearestPoint(points, collective, worldSize, requested, r)
  {
    NearestByRatio(points, collective, worldSize, requested);
    r := ScanPoints(points, collective, worldSize, requested);
  }

  /** The scan and its final choice. */
  method ScanPoints(points: seq<PolicyPoint>, collective: Collective, worldSize: int, requested: nat)
    returns (r: Option<nat>)
    requires ParsedPolicy(points) && requested > 0
    ensures r == Nearest(points, collective, worldSize, requested, |points|)
  {
    var previous: Option<nat>, next: Option<nat> := None, None;
    var i: nat := 0;
    while i < |points|
      invariant i <= |points| && ScanState(points, requested, previous, next)
      invariant Nearest(points, collective, worldSize, requested, i) == Choose(points, requested, previous, next)
    {
      var point := points[i];
      if Matches(point, collective, worldSize) {
        if point.bytes == requested {
          ExactWins(points, collective, worldSize, requested, previous, next, i);
          return Some(i);
        }
        if point.bytes < requested {
          PreviousStep(points, requested, previous, next, i);
          if previous.None? || point.bytes > points[previous.value].bytes {
            previous := Some(i);
          }
        } else {
          NextStep(points, requested, previous, next, i);
          if next.None? || point.bytes < points[next.value].bytes {
            next := Some(i);
          }
        }
      }
      i := i + 1;
    }
    return Choose(points, requested, previous, next);
  }

  // ---------- configuration of a point ----------

  predicate CandidateFitsCaps(c: Candidate, caps: Caps) {
    && !(caps.maxCtas.Some? && c.maxCtas > caps.maxCtas.value)
    && !(caps.maxCtasPerReduceTask.Some? && c.maxCtasPerReduceTask > caps.maxCtasPerReduceTask.value)
  }

  /** The largest value that respects both a limit and an optional cap. */
  function Clamp(x: int, cap: Option<int>): int {
    if cap.Some? then Min(x, Min(cap.value, MAX_CTAS)) else x
  }

  function Capped(config: LaunchConfig, caps: Caps): LaunchConfig {
    var ctas := Clamp(config.maxCtas, caps.maxCtas);
    config.(maxCtas := ctas,
            maxCtasPerReduceTask := Min(Clamp(config.maxCtasPerReduceTask, caps.maxCtasPerReduceTask), ctas))
  }

  ghost predicate WithinCaps(c: LaunchConfig, caps: Caps) {
    && (caps.maxCtas.Some? ==> c.maxCtas <= caps.maxCtas.value)
    && (caps.maxCtasPerReduceTask.Some? ==> c.maxCtasPerReduceTask <= caps.maxCtasPerReduceTask.value)
    && c.maxCtasPerReduceTask <= c.maxCtas
  }

  /** n is the largest CTA count that the configured value and the cap allow. */
  ghost predicate IsGreatestAllowed(n: int, configured: int, cap: Option<int>) {
    && Allowed(n, configured, cap)
    && forall x :: Allowed(x, configured, cap) ==> x <= n
  }

  ghost predicate Allowed(x: int, configured: int, cap: Option<int>) {
    x <= configured && (cap.Some? ==> x <= cap.value && x <= MAX_CTAS)
  }

  /** What capping gives its caller: the largest allowed counts and nothing else changed; a configuration
      that fits is kept, and a valid one stays valid unless its plan needs two CTAs. */
  ghost predicate CappedMeans(config: LaunchConfig, caps: Caps, c: LaunchConfig) {
    && c == config.(maxCtas := c.maxCtas, maxCtasPerReduceTask := c.maxCtasPerReduceTask)
    && IsGreatestAllowed(c.maxCtas, config.maxCtas, caps.maxCtas)
    && IsGreatestAllowed(c.maxCtasPerReduceTask, Min(config.maxCtasPerReduceTask, c.maxCtas), caps.maxCtasPerReduceTask)
    && WithinCaps(c, caps)
    && (WithinCaps(config, caps) && ValidCommon(config) ==> c == config)
    && (ParsedCaps(caps) && ValidCommon(config) ==> ValidCommon(c))
  }

  lemma CappedIsMeant(config: LaunchConfig, caps: Caps)
    ensures CappedMeans(config, caps, Capped(config, caps))
    ensures forall c :: CappedMeans(config, caps, c) ==> c == Capped(config, caps)
  {
    var d := Capped(config, caps);
    forall c | CappedMeans(config, caps, c) ensures c == d {
      assert Allowed(d.maxCtas, config.maxCtas, caps.maxCtas) && Allowed(c.maxCtas, config.maxCtas, caps.maxCtas);
      var most := Min(config.maxCtasPerReduceTask, c.maxCtas);
      assert Allowed(d.maxCtasPerReduceTask, most, caps.maxCtasPerReduceTask);
      assert Allowed(c.maxCtasPerReduceTask, most, caps.maxCtasPerReduceTask);
    }
  }

  /** Updates the configuration field by field. */
  method ApplyRuntimeCaps(config: LaunchConfig, caps: Caps) returns (c: LaunchConfig)
    ensures CappedMeans(config, caps, c)
    ensures c == Capped(config, caps)
  {
    c := config;
    if caps.maxCtas.Some? {
      c := c.(maxCtas := Min(c.maxCtas, Min(caps.maxCtas.value, MAX_CTAS)));
    }
    if caps.maxCtasPerReduceTask.Some? {
      c := c.(maxCtasPerReduceTask := Min(c.maxCtasPerReduceTask, Min(caps.maxCtasPerReduceTask.value, MAX_CTAS)));
    }
    c := c.(maxCtasPerReduceTask := Min(c.maxCtasPerReduceTask, c.maxCtas));
    CappedIsMeant(config, caps);
  }

  ghost predicate IsFirstFit(ranked: seq<Candidate>, caps: Caps, k: nat) {
    k < |ranked| && CandidateFitsCaps(ranked[k], caps) && forall j :: 0 <= j < k ==> !CandidateFitsCaps(ranked[j], caps)
  }

  /** The first ranked pair that fits, or else the best-ranked one, and then the caps. */
  ghost predicate IsPointConfig(point: PolicyPoint, caps: Caps, c: LaunchConfig) {
    var start := DefaultConfigForCollective(point.collective);
    if exists k: nat :: IsFirstFit(point.ranked, caps, k) then
      exists k: nat :: IsFirstFit(point.ranked, caps, k) && c == Capped(WithPair(start, point.ranked[k]), caps)
    else if point.ranked != [] then c == Capped(WithPair(start, point.ranked[0]), caps)
    else c == Capped(start, caps)
  }

  function WithPair(config: LaunchConfig, pair: Candidate): LaunchConfig {
    config.(maxCtas := pair.maxCtas, maxCtasPerReduceTask := pair.maxCtasPerReduceTask)
  }

  method ConfigFromPolicyPoint(point: PolicyPoint, caps: Caps) returns (c: LaunchConfig)
    ensures IsPointConfig(point, caps, c)
  {
    var selected: Option<Candidate> := None;
    var k: nat := 0;
    while k < |point.ranked|
      invariant k <= |point.ranked| && selected.None?
      invariant forall j :: 0 <= j < k ==> !CandidateFitsCaps(point.ranked[j], caps)
    {
      if CandidateFitsCaps(point.ranked[k], caps) {
        selected := Some(point.ranked[k]);
        assert IsFirstFit(point.ranked, caps, k);
        break;
      }
      k := k + 1;
    }
    if selected.None? && point.ranked != [] {
      selected := Some(point.ranked[0]);
    }
    c := DefaultConfigForCollective(point.collective);
    if selected.Some? {
      c := c.(maxCtas := selected.value.maxCtas, maxCtasPerReduceTask := selected.value.maxCtasPerReduceTask);
    }
    c := ApplyRuntimeCaps(c, caps);
  }

  /** The point configuration is unique, so it is a function of the point and the caps. */
  lemma PointConfigUnique(point: PolicyPoint, caps: Caps, c: LaunchConfig, d: LaunchConfig)
    requires IsPointConfig(point, caps, c) && IsPointConfig(point, caps, d)
    ensures c == d
  {
  }

  // ---------- the whole selection ----------

  /** Always valid and for its collective; with parsed caps it is the default with the largest CTA counts
      they allow, and caps that allow no CTA at all are ignored. */
  method FallbackConfig(collective: Collective, caps: Caps) returns (c: LaunchConfig)
    ensures LaunchConfigValid(c) && PlanFor(c.plan) == collective
    ensures ParsedCaps(caps) ==> CappedMeans(DefaultConfigForCollective(collective), caps, c)
    ensures !ParsedCaps(caps) ==> c == DefaultConfigForCollective(collective)
    ensures c == Fallback(collective, caps)
  {
    c := ApplyRuntimeCaps(DefaultConfigForCollective(collective), caps);
    if !LaunchConfigValid(c) {
      c := DefaultConfigForCollective(collective);
    }
  }

  function Fallback(collective: Collective, caps: Caps): LaunchConfig {
    var c := Capped(DefaultConfigForCollective(collective), caps);
    if LaunchConfigValid(c) then c else DefaultConfigForCollective(collective)
  }

  ghost function PointConfig(point: PolicyPoint, caps: Caps): (c: LaunchConfig)
    ensures IsPointConfig(point, caps, c)
  {
    PointConfigExists(point, caps);
    var c :| IsPointConfig(point, caps, c);
    c
  }

  lemma PointConfigExists(point: PolicyPoint, caps: Caps)
    ensures exists c :: IsPointConfig(point, caps, c)
  {
    var start := DefaultConfigForCollective(point.collective);
    if k: nat :| IsFirstFit(point.ranked, caps, k) {
      assert IsPointConfig(point, caps, Capped(WithPair(start, point.ranked[k]), caps));
    } else if point.ranked != [] {
      assert IsPointConfig(point, caps, Capped(WithPair(start, point.ranked[0]), caps));
    } else {
      assert IsPointConfig(point, caps, Capped(start, caps));
    }
  }

  /** What the selection computes for a request, with no cache in between; an unloaded policy has no points. */
  ghost function Uncached(points: seq<PolicyPoint>, caps: Caps, collective: Collective, worldSize: int,
                          bytes: nat): LaunchConfig
    requires ParsedPolicy(points)
  {
    if points == [] || worldSize <= 0 || bytes == 0 then Fallback(collective, caps)
    else
      var i := Nearest(points, collective, worldSize, bytes, |points|);
      if i.Some? && LaunchConfigValid(PointConfig(points[i.value], caps)) then PointConfig(points[i.value], caps)
      else Fallback(collective, caps)
  }

  method SelectUncached(points: seq<PolicyPoint>, caps: Caps, collective: Collective, worldSize: int, bytes: nat)
    returns (selected: LaunchConfig)
    requires ParsedPolicy(points)
    ensures selected == Uncached(points, caps, collective, worldSize, bytes)
  {
    selected := FallbackConfig(collective, caps);
    if points != [] && worldSize > 0 && bytes > 0 {
      var point := SelectNearestPolicyPoint(points, collective, worldSize, bytes);
      if point.Some? {
        var candidate := ConfigFromPolicyPoint(points[point.value], caps);
        PointConfigUnique(points[point.value], caps, candidate, PointConfig(points[point.value], caps));
        if LaunchConfigValid(candidate) {
          selected := candidate;
        }
      }
    }
  }

  /** The answer's fields that no measurement and no cap changes. */
  ghost predicate IsStandard(c: LaunchConfig, collective: Collective) {
    && c.threads == 32 && c.windowChunks == 1 && c.chunkBytes == 8192 && c.stageDepth == 16
    && c.plan == match collective {
         case AllReduce => AllReduceTmaCopy
         case ReduceScatter => ReduceScatterTmaReduce
         case AllGather => AllGatherTmaCopy
       }
  }

  function UnderCap(x: int, cap: Option<int>): int {
    if cap.Some? && cap.value < x then cap.value else x
  }

  lemma FallbackIsValid(collective: Collective, caps: Caps)
    requires ParsedCaps(caps)
    ensures LaunchConfigValid(Fallback(collective, caps)) && WithinCaps(Fallback(collective, caps), caps)
    ensures PlanFor(Fallback(collective, caps).plan) == collective
    ensures var c := Fallback(collective, caps);
            IsStandard(c, collective) && 0 < c.maxCtasPerReduceTask <= c.maxCtas <= 32
  {
  }

  lemma CappedPairIsValid(collective: Collective, pair: Candidate, caps: Caps)
    requires ValidCandidate(pair) && ParsedCaps(caps)
    ensures var c := Capped(WithPair(DefaultConfigForCollective(collective), pair), caps);
            && LaunchConfigValid(c) && WithinCaps(c, caps) && PlanFor(c.plan) == collective
            && IsStandard(c, collective) && 0 < c.maxCtasPerReduceTask <= c.maxCtas <= 32
  {
  }

  lemma PointConfigIsValid(point: PolicyPoint, caps: Caps, c: LaunchConfig)
    requires ParsedPoint(point) && ParsedCaps(caps) && IsPointConfig(point, caps, c)
    ensures LaunchConfigValid(c) && WithinCaps(c, caps) && PlanFor(c.plan) == point.collective
    ensures IsStandard(c, point.collective) && 0 < c.maxCtasPerReduceTask <= c.maxCtas <= 32
  {
    forall k | 0 <= k < |point.ranked|
      ensures var d := Capped(WithPair(DefaultConfigForCollective(point.collective), point.ranked[k]), caps);
              && LaunchConfigValid(d) && WithinCaps(d, caps) && PlanFor(d.plan) == point.collective
              && IsStandard(d, point.collective) && 0 < d.maxCtasPerReduceTask <= d.maxCtas <= 32
    {
      CappedPairIsValid(point.collective, point.ranked[k], caps);
    }
  }

  /** The selection always returns a valid configuration for its collective that obeys both caps. */
  lemma SelectionIsValid(points: seq<PolicyPoint>, caps: Caps, collective: Collective, worldSize: int, bytes: nat)
    requires ParsedPolicy(points) && ParsedCaps(caps)
    ensures var c := Uncached(points, caps, collective, worldSize, bytes);
            && LaunchConfigValid(c) && WithinCaps(c, caps) && PlanFor(c.plan) == collective
            && IsStandard(c, collective) && 0 < c.maxCtasPerReduceTask <= c.maxCtas <= 32
  {
    FallbackIsValid(collective, caps);
    if points != [] && worldSize > 0 && bytes > 0 {
      var i := Nearest(points, collective, worldSize, bytes, |points|);
      if i.Some? {
        PointConfigIsValid(points[i.value], caps, PointConfig(points[i.value], caps));
      }
    }
  }

  /** A pair exceeds one of the caps. */
  predicate Exceeds(pair: Candidate, caps: Caps) {
    || (caps.maxCtas.Some? && caps.maxCtas.value < pair.maxCtas)
    || (caps.maxCtasPerReduceTask.Some? && caps.maxCtasPerReduceTask.value < pair.maxCtasPerReduceTask)
  }

  /** A measured pair that fits is used as measured, and it is the best-ranked one that fits, at the
      nearest measured size. */
  lemma SelectionUsesMeasuredPair(points: seq<PolicyPoint>, caps: Caps, collective: Collective, worldSize: int,
                                  bytes: nat, i: nat, k: nat)
    requires ParsedPolicy(points) && ParsedCaps(caps) && worldSize > 0 && bytes > 0
    requires IsNearestPoint(points, collective, worldSize, bytes, Some(i)) && k < |points[i].ranked|
    requires !Exceeds(points[i].ranked[k], caps) && forall j :: 0 <= j < k ==> Exceeds(points[i].ranked[j], caps)
    ensures var c := Uncached(points, caps, collective, worldSize, bytes);
            && IsStandard(c, collective)
            && c.maxCtas == points[i].ranked[k].maxCtas && c.maxCtasPerReduceTask == points[i].ranked[k].maxCtasPerReduceTask
  {
    NearestByRatio(points, collective, worldSize, bytes);
    OneNearestPoint(points, collective, worldSize, bytes, Some(i), Nearest(points, collective, worldSize, bytes, |points|));
    var pair := points[i].ranked[k];
    assert ValidCandidate(pair);
    assert IsFirstFit(points[i].ranked, caps, k);
    var c := Capped(WithPair(DefaultConfigForCollective(points[i].collective), pair), caps);
    assert IsPointConfig(points[i], caps, c);
    PointConfigUnique(points[i], caps, c, PointConfig(points[i], caps));
    PointConfigIsValid(points[i], caps, c);
  }

  /** With no measured pair within the caps, the best-ranked pair is clamped. */
  lemma SelectionClampsBestPair(points: seq<PolicyPoint>, caps: Caps, collective: Collective, worldSize: int,
                                bytes: nat, i: nat)
    requires ParsedPolicy(points) && ParsedCaps(caps) && worldSize > 0 && bytes > 0
    requires IsNearestPoint(points, collective, worldSize, bytes, Some(i))
    requires forall k :: 0 <= k < |points[i].ranked| ==> Exceeds(points[i].ranked[k], caps)
    ensures var c := Uncached(points, caps, collective, worldSize, bytes);
            && points[i].ranked != [] && IsStandard(c, collective)
            && c.maxCtas == UnderCap(points[i].ranked[0].maxCtas, caps.maxCtas)
            && c.maxCtasPerReduceTask ==
                 Min(c.maxCtas, UnderCap(points[i].ranked[0].maxCtasPerReduceTask, caps.maxCtasPerReduceTask))
  {
    NearestByRatio(points, collective, worldSize, bytes);
    OneNearestPoint(points, collective, worldSize, bytes, Some(i), Nearest(points, collective, worldSize, bytes, |points|));
    assert ValidCandidate(points[i].ranked[0]);
    assert forall k: nat :: !IsFirstFit(points[i].ranked, caps, k);
    PointConfigIsValid(points[i], caps, PointConfig(points[i], caps));
  }

  /** Without a measurement of the collective at this world size, and for empty requests: at most 32 CTAs, 8 of
      them on one reduce task, and no more than the caps allow. */
  lemma SelectionWithoutPoint(points: seq<PolicyPoint>, caps: Caps, collective: Collective, worldSize: int, bytes: nat)
    requires ParsedPolicy(points) && ParsedCaps(caps)
    requires worldSize <= 0 || bytes == 0 || IsNearestPoint(points, collective, worldSize, bytes, None)
    ensures var c := Uncached(points, caps, collective, worldSize, bytes);
            && IsStandard(c, collective)
            && c.maxCtas == UnderCap(32, caps.maxCtas)
            && c.maxCtasPerReduceTask == Min(c.maxCtas, UnderCap(8, caps.maxCtasPerReduceTask))
  {
    FallbackIsValid(collective, caps);
    if points != [] && worldSize > 0 && bytes > 0 {
      NearestByRatio(points, collective, worldSize, bytes);
      OneNearestPoint(points, collective, worldSize, bytes, None, Nearest(points, collective, worldSize, bytes, |points|));
    }
  }
}
