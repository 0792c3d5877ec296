/**
 Progress of the barrier: every effective step of a rank adds to a total that a spurious wakeup can
 only set back by a bounded amount, so enough fair rounds return every rank from its k-th sync.
 */
module BarrierProgress {
  import opened Arith
  import opened Sequences
  import opened Barrier

  /** How far a rank is through its current sync, and the steps it owes for a wakeup without cause. */
  function Phase(b: State, pc: Pc): int {
    match pc
    case Outside => 0
    case Locked => 3
    case Waiting(_) => 6
    case Awake(gen) => if gen == b.generation then 4 else 9
    case Rechecking(gen) => if gen == b.generation then 5 else 12
    case Leaving => 15
  }

  function Progress(b: State, r: nat): int
    requires r < |b.pc| && r < |b.returned|
  {
    18 * b.returned[r] + Phase(b, b.pc[r])
  }

  function Total(n: nat, b: State): int
    requires Shape(n, b)
  {
    Sum(seq(n, r requires 0 <= r < n => Progress(b, r)))
  }

  /** An effective step of rank r brings r on and sets nobody back. */
  lemma AdvanceProgress(n: nat, b: State, r: nat, q: nat)
    requires Inv(n, b) && r < n && q < n && AdvanceRank(n, b, r) != b
    ensures Shape(n, AdvanceRank(n, b, r))
    ensures Progress(AdvanceRank(n, b, r), q) >= Progress(b, q) + if q == r then 1 else 0
  {
    assert RankInv(n, b, r) && RankInv(n, b, q);
  }

  /** A spurious wakeup sets only its rank back, by two. */
  lemma SpuriousProgress(n: nat, b: State, r: nat, q: nat)
    requires Inv(n, b) && q < n
    ensures Shape(n, Apply(n, b, Spurious(r)))
    ensures Progress(Apply(n, b, Spurious(r)), q) >= Progress(b, q) - if q == r then 2 else 0
  {
    assert RankInv(n, b, q);
  }

  /** While somebody has not returned k times, nobody has got further than into the next sync. */
  lemma ProgressBound(n: nat, b: State, k: nat, q: nat, r: nat)
    requires Inv(n, b) && q < n && r < n && b.returned[q] < k
    ensures Progress(b, r) <= 18 * k + 15
  {
    Lockstep(n, b, r, q);
  }

  // ---------- rounds ----------

  /** Spurious wakeups in a list of steps. */
  function Wakeups(run: seq<Step>): nat {
    if run == [] then 0 else (if run[0].Spurious? then 1 else 0) + Wakeups(run[1..])
  }

  lemma StepTotal(n: nat, b: State, step: Step)
    requires Inv(n, b)
    ensures Inv(n, Apply(n, b, step))
    ensures Total(n, Apply(n, b, step)) >= Total(n, b) - if step.Spurious? then 2 else 0
    ensures step.Advance? && Apply(n, b, step) != b ==> Total(n, Apply(n, b, step)) >= Total(n, b) + 1
  {
    ApplyInv(n, b, step);
    var b', r := Apply(n, b, step), step.rank;
    if b' != b {
      var before := seq(n, q requires 0 <= q < n => Progress(b, q));
      var after := seq(n, q requires 0 <= q < n => Progress(b', q));
      forall q | 0 <= q < n
        ensures after[q] >= before[q] + if q != r then 0 else if step.Spurious? then -2 else 1
      {
        if step.Spurious? {
          SpuriousProgress(n, b, r, q);
        } else {
          AdvanceProgress(n, b, r, q);
        }
      }
      SumGrows(before, after, r, if step.Spurious? then -2 else 1);
    }
  }

  /** A list of steps that holds an effective step of the first state makes progress, up to its spurious wakeups. */
  lemma {:induction false} RoundTotal(n: nat, b: State, round: seq<Step>)
    requires Inv(n, b)
    ensures Total(n, Exec(n, b, round)) + 3 * Wakeups(round) >= Total(n, b)
    ensures (exists step :: step in round && step.Advance? && Apply(n, b, step) != b) ==>
              Total(n, Exec(n, b, round)) + 3 * Wakeups(round) >= Total(n, b) + 1
    decreases |round|
  {
    if round != [] {
      StepTotal(n, b, round[0]);
      RoundTotal(n, Apply(n, b, round[0]), round[1..]);
    }
  }

  /** Every rank gets at least one turn, in any order. */
  ghost predicate Fair(n: nat, round: seq<Step>) {
    forall r: nat :: r < n ==> Advance(r) in round
  }

  ghost function ExecRounds(n: nat, b: State, rounds: seq<seq<Step>>): (e: State)
    requires Inv(n, b)
    ensures Inv(n, e)
    decreases |rounds|
  {
    if rounds == [] then b else ExecRounds(n, Exec(n, b, rounds[0]), rounds[1..])
  }

  function AllWakeups(rounds: seq<seq<Step>>): nat {
    if rounds == [] then 0 else Wakeups(rounds[0]) + AllWakeups(rounds[1..])
  }

  lemma {:induction false} RoundsTotal(n: nat, b: State, rounds: seq<seq<Step>>)
    requires Inv(n, b) && forall i :: 0 <= i < |rounds| ==> Fair(n, rounds[i])
    ensures Total(n, ExecRounds(n, b, rounds)) + 3 * AllWakeups(rounds) >= Total(n, b) + |rounds|
    decreases |rounds|
  {
    if rounds != [] {
      var r := SomeRankMoves(n, b);
      assert Fair(n, rounds[0]) && Advance(r) in rounds[0];
      RoundTotal(n, b, rounds[0]);
      RoundsTotal(n, Exec(n, b, rounds[0]), rounds[1..]);
    }
  }

  lemma TotalStart(n: nat)
    requires n > 0
    ensures Total(n, Init(n)) >= 0
  {
    SumCompare(seq(n, q => 0), seq(n, q requires 0 <= q < n => Progress(Init(n), q)));
    SumZero(n);
  }

  lemma {:induction false} SumZero(n: nat)
    ensures Sum(seq(n, q => 0)) == 0
  {
    if n > 0 {
      SumZero(n - 1);
      assert seq(n, q => 0)[1..] == seq(n - 1, q => 0);
    }
  }

  lemma TotalBound(n: nat, b: State, k: nat, r: nat)
    requires Inv(n, b) && r < n && b.returned[r] < k
    ensures Total(n, b) <= n * (18 * k + 15)
  {
    forall q: nat | q < n ensures Progress(b, q) <= 18 * k + 15 {
      ProgressBound(n, b, k, r, q);
    }
    SumBound(seq(n, q requires 0 <= q < n => Progress(b, q)), 18 * k + 15);
  }

  /** Liveness: enough fair rounds return every rank from its k-th sync, spurious wakeups included; each
      of those costs at most three rounds. */
  lemma FairRoundsReturn(n: nat, k: nat, rounds: seq<seq<Step>>, r: nat)
    requires n > 0 && r < n && forall i :: 0 <= i < |rounds| ==> Fair(n, rounds[i])
    requires |rounds| > n * (18 * k + 15) + 3 * AllWakeups(rounds)
    ensures Inv(n, Init(n)) && ExecRounds(n, Init(n), rounds).returned[r] >= k
  {
    InitInv(n);
    TotalStart(n);
    RoundsTotal(n, Init(n), rounds);
    if ExecRounds(n, Init(n), rounds).returned[r] < k {
      TotalBound(n, ExecRounds(n, Init(n), rounds), k, r);
    }
  }

  // ---------- for the protocols that run between barriers ----------

  /** Where barrier progress weighs w, a barrier step outweighs any other progress c below w. */
  lemma Outweighs(w: nat, p: int, p': int, c: nat, c': nat, d: int)
    requires w > 0 && c < w && p' >= p + d
    ensures d == 1 ==> w * p' + c' >= w * p + c + 1
    ensures d == -2 ==> w * p' + c' >= w * p + c - 3 * w
    ensures d == 0 && c' == c ==> w * p' + c' >= w * p + c
  {
    MulLe(p + d, p', w);
    assert (p + d) * w == p * w + d * w;
  }

  lemma ScoreBound(w: nat, p: int, most: nat, c: nat)
    requires p <= most && c < w
    ensures w * p + c <= w * (most + 1)
  {
    MulLe(p, most, w);
    assert w * (most + 1) == w * most + w;
  }

  /** What spurious wakeups can cost where a unit of barrier progress weighs w. */
  function Cost(w: nat, wakeups: nat): int {
    wakeups * (3 * w + 1)
  }

  lemma CostAdds(w: nat, a: nat, b: nat)
    ensures Cost(w, a + b) == Cost(w, a) + Cost(w, b) && Cost(w, 1) == 3 * w + 1 && Cost(w, 0) == 0
  {
    var c := 3 * w + 1;
    assert (a + b) * c == a * c + b * c;
  }

  /** Adding up: totals t0, t1 and t2 before a part of a run, after it and at the end, with gains g and h. */
  lemma AddGains(w: nat, t0: int, t1: int, t2: int, first: nat, others: nat, all: nat, g: int, h: int)
    requires t1 + Cost(w, first) >= t0 + g && t2 + Cost(w, others) >= t1 + h && all == first + others
    ensures t2 + Cost(w, all) >= t0 + g + h
  {
    CostAdds(w, first, others);
  }
}
