/**
 Loading the tuning policy: the file named by the environment, or else the default file, with the
 points put in order.  A file is represented by the points that its parser lets through.
 */
module PolicyLoad {
  import opened LaunchConfigs
  import opened TuningPolicy
  import opened Wrappers

  function CollectiveRank(c: Collective): int {
    match c
    case AllReduce => 0
    case ReduceScatter => 1
    case AllGather => 2
  }

  /** The order of the points: world size, collective, bytes. */
  predicate InOrder(a: PolicyPoint, b: PolicyPoint) {
    if a.worldSize != b.worldSize then a.worldSize < b.worldSize
    else if a.collective != b.collective then CollectiveRank(a.collective) < CollectiveRank(b.collective)
    else a.bytes <= b.bytes
  }

  ghost predicate Ordered(points: seq<PolicyPoint>) {
    forall i, j :: 0 <= i < j < |points| ==> InOrder(points[i], points[j])
  }

  /** The same points, in order; points that tie may stand either way. */
  ghost predicate IsArrangement(points: seq<PolicyPoint>, file: seq<PolicyPoint>) {
    Ordered(points) && multiset(points) == multiset(file)
  }

  /** What loading yields: the environment's file when it has points, else the default one, else nothing. */
  ghost predicate IsLoaded(points: seq<PolicyPoint>, envFile: seq<PolicyPoint>, defaultFile: seq<PolicyPoint>) {
    IsArrangement(points, if envFile != [] then envFile else defaultFile)
  }

  /** Points come by world size, then all-reduce before reduce-scatter before all-gather, then by size. */
  lemma OrderedMeans(points: seq<PolicyPoint>, i: nat, j: nat)
    requires Ordered(points) && i < j < |points|
    ensures points[i].worldSize <= points[j].worldSize
    ensures points[i].worldSize == points[j].worldSize ==>
              && (points[j].collective.AllReduce? ==> points[i].collective.AllReduce?)
              && (points[i].collective.AllGather? ==> points[j].collective.AllGather?)
    ensures points[i].worldSize == points[j].worldSize && points[i].collective == points[j].collective ==>
              points[i].bytes <= points[j].bytes
  {
  }

  lemma InOrderIsTotal(a: PolicyPoint, b: PolicyPoint)
    ensures InOrder(a, b) || InOrder(b, a)
  {
  }

  lemma InOrderTransitive(a: PolicyPoint, b: PolicyPoint, c: PolicyPoint)
    requires InOrder(a, b) && InOrder(b, c)
    ensures InOrder(a, c)
  {
  }

  ghost predicate AllBefore(s: seq<PolicyPoint>, p: PolicyPoint) {
    forall x :: x in multiset(s) ==> InOrder(x, p)
  }

  lemma AppendOrdered(s: seq<PolicyPoint>, p: PolicyPoint)
    requires Ordered(s) && AllBefore(s, p)
    ensures Ordered(s + [p])
  {
    assert forall i :: 0 <= i < |s| ==> s[i] in multiset(s);
  }

  /** Everything in an ordered list is before what its last point is before. */
  lemma LastDominates(s: seq<PolicyPoint>, p: PolicyPoint)
    requires Ordered(s) && s != [] && InOrder(s[|s| - 1], p)
    ensures AllBefore(s, p)
  {
    forall x | x in multiset(s) ensures InOrder(x, p) {
      var i :| 0 <= i < |s| && s[i] == x;
      if i < |s| - 1 {
        InOrderTransitive(x, s[|s| - 1], p);
      }
    }
  }

  lemma FrontBeforeLast(s: seq<PolicyPoint>, front: seq<PolicyPoint>, p: PolicyPoint)
    requires Ordered(s) && s != [] && !InOrder(s[|s| - 1], p)
    requires multiset(front) == multiset(s[..|s| - 1]) + multiset{p}
    ensures AllBefore(front, s[|s| - 1])
  {
    InOrderIsTotal(s[|s| - 1], p);
    forall x | x in multiset(front) ensures InOrder(x, s[|s| - 1]) {
      if x != p {
        assert x in multiset(s[..|s| - 1]);
        var i :| 0 <= i < |s| - 1 && s[i] == x;
      }
    }
  }

  function Insert(points: seq<PolicyPoint>, p: PolicyPoint): (r: seq<PolicyPoint>)
    requires Ordered(points)
    ensures Ordered(r) && multiset(r) == multiset(points) + multiset{p}
  {
    if points == [] then [p]
    else
      var k := |points| - 1;
      assert points == points[..k] + [points[k]];
      if InOrder(points[k], p) then
        LastDominates(points, p);
        AppendOrdered(points, p);
        points + [p]
      else
        var front := Insert(points[..k], p);
        FrontBeforeLast(points, front, p);
        AppendOrdered(front, points[k]);
        front + [points[k]]
  }

  /** `std::sort` on the points. */
  function SortPoints(points: seq<PolicyPoint>): (r: seq<PolicyPoint>)
    ensures IsArrangement(r, points)
  {
    if points == [] then []
    else
      var k := |points| - 1;
      assert points == points[..k] + [points[k]];
      Insert(SortPoints(points[..k]), points[k])
  }

  /** The body of `ensure_policy_loaded` at its first call. */
  method LoadPolicy(envFile: seq<PolicyPoint>, defaultFile: seq<PolicyPoint>) returns (points: seq<PolicyPoint>)
    ensures IsLoaded(points, envFile, defaultFile)
  {
    points := envFile;
    var loaded := |points| > 0;
    if !loaded {
      points := defaultFile;
      loaded := |points| > 0;
    }
    if loaded {
      points := SortPoints(points);
    }
  }

  lemma ArrangementParsed(points: seq<PolicyPoint>, file: seq<PolicyPoint>)
    requires multiset(points) == multiset(file) && ParsedPolicy(file)
    ensures ParsedPolicy(points)
  {
    forall i | 0 <= i < |points| ensures ParsedPoint(points[i]) {
      assert points[i] in multiset(file);
    }
  }

  /** The measured size that is selected does not depend on the order of the points. */
  lemma NearestSizeIgnoresOrder(points: seq<PolicyPoint>, points': seq<PolicyPoint>, collective: Collective,
                                worldSize: int, requested: nat)
    requires ParsedPolicy(points) && ParsedPolicy(points') && multiset(points) == multiset(points') && requested > 0
    ensures var r := Nearest(points, collective, worldSize, requested, |points|);
            var r' := Nearest(points', collective, worldSize, requested, |points'|);
            (r.Some? <==> r'.Some?) && (r.Some? ==> points[r.value].bytes == points'[r'.value].bytes)
  {
    var r := Nearest(points, collective, worldSize, requested, |points|);
    var r' := Nearest(points', collective, worldSize, requested, |points'|);
    if r.Some? {
      assert points[r.value] in multiset(points');
      var j :| 0 <= j < |points'| && points'[j] == points[r.value];
      NearestIsMinimum(points', collective, worldSize, requested, |points'|, j);
    }
    if r'.Some? {
      assert points'[r'.value] in multiset(points);
      var j :| 0 <= j < |points| && points[j] == points'[r'.value];
      NearestIsMinimum(points, collective, worldSize, requested, |points|, j);
    }
  }

  // ---------- points that tie ----------

  predicate SameKey(p: PolicyPoint, q: PolicyPoint) {
    p.worldSize == q.worldSize && p.collective == q.collective && p.bytes == q.bytes
  }

  /** What a request is answered with when this point is the nearest one. */
  ghost function Chosen(p: PolicyPoint, caps: Caps): LaunchConfig {
    if LaunchConfigValid(PointConfig(p, caps)) then PointConfig(p, caps) else Fallback(p.collective, caps)
  }

  /** Points that tie are answered with the same configuration. */
  ghost predicate TiesAgree(points: seq<PolicyPoint>, caps: Caps) {
    forall p, q :: p in points && q in points && SameKey(p, q) ==> Chosen(p, caps) == Chosen(q, caps)
  }

  /** Whatever order the sort leaves ties in, every request gets the same configuration. */
  ghost predicate OrderIgnored(points: seq<PolicyPoint>, caps: Caps) {
    forall a, b, collective, worldSize, bytes ::
      IsArrangement(a, points) && IsArrangement(b, points) && ParsedPolicy(a) && ParsedPolicy(b) ==>
        Uncached(a, caps, collective, worldSize, bytes) == Uncached(b, caps, collective, worldSize, bytes)
  }

  /** A request is answered from the point that is found for it. */
  lemma AnsweredFrom(points: seq<PolicyPoint>, caps: Caps, collective: Collective, worldSize: int, bytes: nat)
    requires ParsedPolicy(points) && worldSize > 0 && bytes > 0
    ensures var r := Nearest(points, collective, worldSize, bytes, |points|);
            Uncached(points, caps, collective, worldSize, bytes) ==
            if r.Some? then Chosen(points[r.value], caps) else Fallback(collective, caps)
  {
  }

  lemma AgreeingTies(points: seq<PolicyPoint>, caps: Caps, a: seq<PolicyPoint>, b: seq<PolicyPoint>,
                     collective: Collective, worldSize: int, bytes: nat)
    requires TiesAgree(points, caps) && multiset(a) == multiset(points) && multiset(b) == multiset(points)
    requires ParsedPolicy(a) && ParsedPolicy(b)
    ensures Uncached(a, caps, collective, worldSize, bytes) == Uncached(b, caps, collective, worldSize, bytes)
  {
    assert |a| == |multiset(a)| && |b| == |multiset(b)|;
    if worldSize > 0 && bytes > 0 {
      AnsweredFrom(a, caps, collective, worldSize, bytes);
      AnsweredFrom(b, caps, collective, worldSize, bytes);
      NearestSizeIgnoresOrder(a, b, collective, worldSize, bytes);
      var r := Nearest(a, collective, worldSize, bytes, |a|);
      var r' := Nearest(b, collective, worldSize, bytes, |b|);
      if r.Some? {
        assert a[r.value] in multiset(points) && b[r'.value] in multiset(points);
        assert SameKey(a[r.value], b[r'.value]);
      }
    }
  }

  /** The first point with a given key answers the request of exactly that key. */
  lemma FirstOfKeyWins(points: seq<PolicyPoint>, i: nat)
    requires ParsedPolicy(points) && i < |points| && forall j :: 0 <= j < i ==> !SameKey(points[j], points[i])
    ensures Nearest(points, points[i].collective, points[i].worldSize, points[i].bytes, |points|) == Some(i)
  {
    var p := points[i];
    NearestIsMinimum(points, p.collective, p.worldSize, p.bytes, |points|, i);
    var r := Nearest(points, p.collective, p.worldSize, p.bytes, |points|).value;
    NothingNearer(points[r].bytes, p.bytes);
  }

  /** Points that tie may be swapped. */
  lemma SwapTies(s: seq<PolicyPoint>, f: nat, i: nat)
    requires Ordered(s) && f < |s| && i < |s| && SameKey(s[f], s[i])
    ensures IsArrangement(s[f := s[i]][i := s[f]], s)
  {
    var t := s[f := s[i]][i := s[f]];
    forall j | 0 <= j < |s| ensures SameKey(t[j], s[j]) {
    }
    forall j, k | 0 <= j < k < |t| ensures InOrder(t[j], t[k]) {
      assert InOrder(s[j], s[k]) && SameKey(t[j], s[j]) && SameKey(t[k], s[k]);
    }
  }

  /** Every point answers its own request in some arrangement. */
  lemma EveryTieCanWin(points: seq<PolicyPoint>, caps: Caps, p: PolicyPoint) returns (a: seq<PolicyPoint>)
    requires ParsedPolicy(points) && p in points
    ensures IsArrangement(a, points) && ParsedPolicy(a)
    ensures Uncached(a, caps, p.collective, p.worldSize, p.bytes) == Chosen(p, caps)
  {
    var s := SortPoints(points);
    assert p in multiset(s);
    var i: nat :| i < |s| && s[i] == p;
    var f := FirstOfKey(s, i);
    a := s[f := s[i]][i := s[f]];
    SwapTies(s, f, i);
    ArrangementParsed(a, points);
    FirstAnswers(a, caps, f);
  }

  lemma FirstAnswers(a: seq<PolicyPoint>, caps: Caps, f: nat)
    requires ParsedPolicy(a) && f < |a| && forall j :: 0 <= j < f ==> !SameKey(a[j], a[f])
    ensures Uncached(a, caps, a[f].collective, a[f].worldSize, a[f].bytes) == Chosen(a[f], caps)
  {
    FirstOfKeyWins(a, f);
    AnsweredFrom(a, caps, a[f].collective, a[f].worldSize, a[f].bytes);
  }

  lemma {:induction false} FirstOfKey(s: seq<PolicyPoint>, i: nat) returns (f: nat)
    requires i < |s|
    ensures f <= i && SameKey(s[f], s[i]) && forall j :: 0 <= j < f ==> !SameKey(s[j], s[i])
  {
    if j: nat :| j < i && SameKey(s[j], s[i]) {
      f := FirstOfKey(s, j);
    } else {
      f := i;
    }
  }

  /** The whole selection ignores the order that the sort leaves exactly when points that tie agree. */
  lemma OrderIgnoredIffTiesAgree(points: seq<PolicyPoint>, caps: Caps)
    requires ParsedPolicy(points)
    ensures OrderIgnored(points, caps) <==> TiesAgree(points, caps)
  {
    if TiesAgree(points, caps) {
      forall a, b, collective, worldSize, bytes |
        IsArrangement(a, points) && IsArrangement(b, points) && ParsedPolicy(a) && ParsedPolicy(b)
        ensures Uncached(a, caps, collective, worldSize, bytes) == Uncached(b, caps, collective, worldSize, bytes)
      {
        AgreeingTies(points, caps, a, b, collective, worldSize, bytes);
      }
    }
    if OrderIgnored(points, caps) {
      forall p, q | p in points && q in points && SameKey(p, q) ensures Chosen(p, caps) == Chosen(q, caps) {
        var a := EveryTieCanWin(points, caps, p);
        var b := EveryTieCanWin(points, caps, q);
      }
    }
  }

  /** In particular where no two points have the same key. */
  lemma DistinctKeys(points: seq<PolicyPoint>, caps: Caps)
    requires ParsedPolicy(points) && forall i, j :: 0 <= i < j < |points| ==> !SameKey(points[i], points[j])
    ensures OrderIgnored(points, caps)
  {
    OrderIgnoredIffTiesAgree(points, caps);
  }

  lemma OnlyPair(p: PolicyPoint, ctas: int, caps: Caps)
    requires p == PolicyPoint(AllReduce, 2, 1024, [Candidate(ctas, 2)]) && 2 <= ctas <= MAX_CTAS
    requires caps == Caps(None, None)
    ensures ParsedPoint(p) && Chosen(p, caps).maxCtas == ctas
  {
    assert IsFirstFit(p.ranked, caps, 0);
    assert PointConfig(p, caps) == Capped(WithPair(DefaultConfigForCollective(AllReduce), p.ranked[0]), caps);
  }

  /** Two measurements of one size with different best pairs: the answer depends on the sort. */
  lemma TiesCanDiffer(p: PolicyPoint, q: PolicyPoint, caps: Caps)
    requires p == PolicyPoint(AllReduce, 2, 1024, [Candidate(4, 2)])
    requires q == PolicyPoint(AllReduce, 2, 1024, [Candidate(8, 2)])
    requires caps == Caps(None, None)
    ensures ParsedPolicy([p, q]) && !OrderIgnored([p, q], caps)
  {
    OnlyPair(p, 4, caps);
    OnlyPair(q, 8, caps);
    OrderIgnoredIffTiesAgree([p, q], caps);
    assert [p, q][0] in [p, q] && [p, q][1] in [p, q];
  }
}
